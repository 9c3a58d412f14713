/**
 * `DiagnosticProcessor` (src/processors/diagnostic_processor.py): a text
 * sample of the exam (and of the answer key, when there is one) is sent to the
 * model with the shared retry policy, to classify the whole exam once.
 *
 * The sample is the first half of a long document and all of a short one.
 * Opening the PDF is modelled by `TextExtractor.PdfFile`: a missing file
 * raises when it is opened, before any page is read.
 */
module DiagnosticProcessor {
  import opened Wrappers
  import opened Strings
  import opened TextExtractor
  import opened Dispatch

  /** Documents with more pages than this are sampled from the first half only. */
  const MinPagesForMiddleSample: nat := 2

  /**
   * The exclusive end page of the sample: the first `total / 2` pages of a
   * document with more than two pages, every page of a shorter one, and no
   * page range at all for an empty document.
   */
  function SampleEnd(total: nat): (r: Option<nat>)
    ensures r.None? <==> total == 0
    ensures r.Some? ==> 1 <= r.value <= total
    ensures total > MinPagesForMiddleSample ==> r.Some? && r.value < total && 2 * r.value <= total <= 2 * r.value + 1
    ensures 0 < total <= MinPagesForMiddleSample ==> r == Some(total)
  {
    if total == 0 then None
    else if total > MinPagesForMiddleSample then Some(total / 2)
    else Some(total)
  }

  /** The requested range `[0, end_page)` survives normalisation unchanged. */
  lemma SampleRangeIsExact(total: nat)
    requires total > 0
    ensures NormalizePageRange(Some(0), Some(SampleEnd(total).value), total) == (0, SampleEnd(total).value)
  {
  }

  /** What `extract_sample` returns or raises. */
  function Sample(pdf: PdfFile): (r: Result<string, ExtractError>)
    ensures !pdf.present ==> r == Err(FileNotFound)
    ensures pdf.present && |pdf.pageTexts| == 0 ==> r == Ok("")
  {
    if !pdf.present then Err(FileNotFound)
    else match SampleEnd(|pdf.pageTexts|)
      case None => Ok("")
      case Some(end) =>
        if LowerAsciiString(pdf.suffix) != ".pdf" then Err(NotPdf)
        else Ok(PageBlocks(pdf.pageTexts, 0, end))
  }

  /** `extract_sample`: the page count decides the range, then `extract_text` reads it. */
  method ExtractSample(pdf: PdfFile) returns (r: Result<string, ExtractError>)
    ensures r == Sample(pdf)
  {
    if !pdf.present {
      return Err(FileNotFound);
    }
    var total := |pdf.pageTexts|;
    if total == 0 {
      return Ok("");
    }
    var endPage := if total > MinPagesForMiddleSample then total / 2 else total;
    SampleRangeIsExact(total);
    r := ExtractText(pdf, Some(0), Some(endPage));
  }

  /**
   * A sample of a non-empty PDF is the blocks of its first `end` pages, in page
   * order, where `end` is half the page count for long documents.
   */
  lemma SampleIsFirstPages(pdf: PdfFile)
    requires pdf.present && |pdf.pageTexts| > 0 && LowerAsciiString(pdf.suffix) == ".pdf"
    ensures var end := SampleEnd(|pdf.pageTexts|).value;
            Sample(pdf)
            == Ok(Concat(seq(end, i requires 0 <= i < end => PageBlock(i, pdf.pageTexts[i]))))
  {
    var end := SampleEnd(|pdf.pageTexts|).value;
    PageBlocksAreBlocks(pdf.pageTexts, 0, end);
    assert seq(end - 0, i requires 0 <= i < end - 0 => PageBlock(0 + i, pdf.pageTexts[0 + i]))
        == seq(end, i requires 0 <= i < end => PageBlock(i, pdf.pageTexts[i]));
  }

  /**
   * The answer-key sample: empty unless a path is given and the file exists.
   * `None` stands for no path; `present` is what `exists()` reports.
   */
  function AnswerSample(answerKey: Option<PdfFile>): (r: Result<string, ExtractError>)
    ensures answerKey.None? || !answerKey.value.present ==> r == Ok("")
    ensures answerKey.Some? && answerKey.value.present ==> r == Sample(answerKey.value)
  {
    if answerKey.Some? && answerKey.value.present then Sample(answerKey.value) else Ok("")
  }

  /**
   * `diagnose`: both samples are taken first (either may raise), then the
   * model, prompted with them, gets up to `max_retries` attempts under the
   * shared retry policy. `model(exam, answer)` gives the outcome of each
   * attempt for that prompt.
   */
  method Diagnose<D>(exam: PdfFile, answerKey: Option<PdfFile>, model: (string, string) -> (nat -> Outcome<D>),
                     maxRetries: int, retryBaseDelay: real)
    returns (r: Result<Option<D>, ExtractError>, attempts: nat, delays: seq<real>)
    ensures Sample(exam).Err? ==> r == Err(Sample(exam).error) && attempts == 0
    ensures Sample(exam).Ok? && AnswerSample(answerKey).Err? ==> r == Err(AnswerSample(answerKey).error) && attempts == 0
    ensures Sample(exam).Ok? && AnswerSample(answerKey).Ok? ==>
      var call := model(Sample(exam).value, AnswerSample(answerKey).value);
      && r == Ok(RetryResult(call, maxRetries))
      && attempts == AttemptsMade(call, maxRetries)
      && delays == Backoff(retryBaseDelay, if attempts == 0 then 0 else attempts - 1)
  {
    var examSample := ExtractSample(exam);
    if examSample.Err? {
      return Err(examSample.error), 0, [];
    }
    var answerSample := Ok("");
    if answerKey.Some? {
      if answerKey.value.present {
        answerSample := ExtractSample(answerKey.value);
      }
    }
    if answerSample.Err? {
      return Err(answerSample.error), 0, [];
    }
    var result;
    result, attempts, delays := RetryWithBackoff(maxRetries, retryBaseDelay, model(examSample.value, answerSample.value));
    r := Ok(result);
  }

  /**
   * With readable samples, `diagnose` never raises: it returns a diagnostic
   * exactly when some attempt within `max_retries` succeeds, after at most
   * `max_retries` calls, and otherwise None.
   */
  lemma DiagnoseOutcome<D>(exam: PdfFile, answerKey: Option<PdfFile>, model: (string, string) -> (nat -> Outcome<D>),
                           maxRetries: int)
    requires Sample(exam).Ok? && AnswerSample(answerKey).Ok?
    ensures var call := model(Sample(exam).value, AnswerSample(answerKey).value);
            && (RetryResult(call, maxRetries).Some? <==> exists k :: 1 <= k <= maxRetries && call(k).Success?)
            && AttemptsMade(call, maxRetries) <= (if maxRetries > 0 then maxRetries else 0)
  {
    RetryOutcome(model(Sample(exam).value, AnswerSample(answerKey).value), maxRetries);
  }
}
