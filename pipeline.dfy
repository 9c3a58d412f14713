/**
 * The text steps of `process_exam` (src/pipeline.py): the combined exam and
 * answer-key text that `extract_content` produces is split back into the two
 * by `split_answer_key`.
 */
module Pipeline {
  import opened Wrappers
  import opened Strings
  import opened TextExtractor
  import opened ExamExtractor
  import opened QuestionProcessor

  /**
   * `extract_exam_text` followed by `split_answer_key` (the pipeline's text steps,
   * with `clean_text` in between left aside): with the default separator and
   * an exam whose pages do not contain the marker, the exam's pages and the
   * key's pages come apart again, and without a key file the placeholder is
   * the key.
   */
  lemma ExamTextSplitsBack(exam: PdfFile, answerKey: PdfFile, examStart: Option<int>, examEnd: Option<int>)
    requires ExtractExamText(exam, answerKey, examStart, examEnd, AnswerKeySeparator).Ok?
    requires !Contains(RangeBlocks(exam, examStart, examEnd), AnswerKeyMark)
    ensures var examPages := RangeBlocks(exam, examStart, examEnd);
            var keyPages := PageBlocks(answerKey.pageTexts, 0, |answerKey.pageTexts|);
            SplitAnswerKey(ExtractExamText(exam, answerKey, examStart, examEnd, AnswerKeySeparator).value)
            == if answerKey.present then (examPages + "\n\n", "\n\n" + keyPages) else (examPages, NoAnswerKey)
  {
    if answerKey.present {
      SeparatorSplitsBack(RangeBlocks(exam, examStart, examEnd), PageBlocks(answerKey.pageTexts, 0, |answerKey.pageTexts|));
    }
  }
}
