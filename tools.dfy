/**
 * The agent tools of src/tools.py that structure questions: the same split
 * as the processor, but with the case-sensitive pattern; one model call per
 * chunk with no retry and no id; a parsed answer that may be a list of
 * questions; and an image rule that also sets `image` when a question has
 * a URL among its sources and no passage text.
 *
 * The PDF tools themselves only call the extractors and are not repeated here.
 */
module Tools {
  import opened Wrappers
  import opened Strings
  import opened Headers
  import opened ExamExtractor
  import opened Dispatch
  import opened QuestionProcessor

  // ---------------------------------------------------------------------------
  // Chunking
  // ---------------------------------------------------------------------------

  /** `_chunk_by_questions`: the processor's split loop with the case-sensitive pattern. */
  method ChunkByQuestions(text: string) returns (chunks: seq<string>)
    ensures chunks == ChunksOf(SplitOnHeaders(text, false))
    ensures forall k :: 0 <= k < |chunks| ==> Contains(chunks[k], Marker)
  {
    chunks := SplitIntoQuestions(text, false);
    forall k | 0 <= k < |chunks| ensures Contains(chunks[k], Marker) {
      CaseSensitiveChunksPassGuard(text, k);
    }
  }

  // ---------------------------------------------------------------------------
  // `_process_question_chunk`
  // ---------------------------------------------------------------------------

  /**
   * One model call under the semaphore: the parsed answer, or None when the
   * chunk lacks the marker or the call or the parse raises.
   */
  function ToolChunkResult(chunk: string, answer: Outcome<Parsed<Question>>): (r: Option<Parsed<Question>>)
    ensures r.Some? <==> Contains(chunk, Marker) && answer.Success?
  {
    if !Contains(chunk, Marker) then None
    else match answer
      case Success(p) => Some(p)
      case Failure => None
  }

  /** The tool makes exactly the first attempt of the processor's loop, with `max_retries` 1. */
  lemma ToolChunkIsSingleAttempt(chunk: string, answer: Outcome<Parsed<Question>>)
    requires Contains(chunk, Marker)
    ensures ToolChunkResult(chunk, answer) == RetryResult((k: nat) => answer, 1)
    ensures AttemptsMade((k: nat) => answer, 1) == 1
  {
    RetryOutcome((k: nat) => answer, 1);
  }

  // ---------------------------------------------------------------------------
  // `_attach_image_to_question`
  // ---------------------------------------------------------------------------

  /** `any("http" in str(source) for source in sources)`. */
  predicate HasUrl(sources: seq<string>) {
    exists i :: 0 <= i < |sources| && Contains(sources[i], "http")
  }

  /**
   * The tool's update of one question: the URL rule may set `image`, then a
   * question with `image` set takes the images of the first matching key.
   * Only `image` and `images` change; `image` ends up set exactly when it was
   * set already or the question cites a URL and has a blank passage, so the
   * rule never clears it; and when the URL rule does not fire the tool does
   * what the processor's loop does.
   */
  function ToolAttached(q: Question, d: Dict): (r: Question)
    requires forall k :: k in d.keys ==> k in d.lists
    ensures r == q.(image := r.image, images := r.images)
    ensures r.image <==> q.image || (HasUrl(q.sources) && IsBlank(q.passageText))
    ensures !(HasUrl(q.sources) && IsBlank(q.passageText)) ==> r == WithImages(q, d)
    ensures r.image && FirstKeyIn(d.keys, q.question).Some? ==>
              r.images == d.lists[FirstKeyIn(d.keys, q.question).value]
    ensures !r.image || FirstKeyIn(d.keys, q.question).None? ==> r.images == q.images
  {
    var flagged := if HasUrl(q.sources) && IsBlank(q.passageText) then q.(image := true) else q;
    WithImages(flagged, d)
  }

  /** The `for question in final_data` loop, updating each question in place. */
  method AttachImages(questions: array<Question>, d: Dict)
    requires forall k :: k in d.keys ==> k in d.lists
    modifies questions
    ensures forall i :: 0 <= i < questions.Length ==> questions[i] == ToolAttached(old(questions[i]), d)
  {
    var i := 0;
    while i < questions.Length
      invariant 0 <= i <= questions.Length
      invariant forall j :: 0 <= j < i ==> questions[j] == ToolAttached(old(questions[j]), d)
      invariant forall j :: i <= j < questions.Length ==> questions[j] == old(questions[j])
    {
      var q := questions[i];
      if HasUrl(q.sources) && IsBlank(q.passageText) {
        q := q.(image := true);
      }
      if q.image {
        var key := FirstMatchingKey(d, q.question);
        if key.Some? {
          q := q.(images := d.lists[key.value]);
        }
      }
      questions[i] := q;
      i := i + 1;
    }
  }

  // ---------------------------------------------------------------------------
  // `structure_questions` (the tool)
  // ---------------------------------------------------------------------------

  /** The result of every chunk, in the order of the chunks; chunk `i` gets `answers(i)`. */
  function ToolResults(chunks: seq<string>, answers: nat -> Outcome<Parsed<Question>>)
    : (r: seq<Option<Parsed<Question>>>)
    ensures |r| == |chunks|
    ensures forall i :: 0 <= i < |chunks| ==> r[i] == ToolChunkResult(chunks[i], answers(i))
  {
    seq(|chunks|, i requires 0 <= i < |chunks| => ToolChunkResult(chunks[i], answers(i)))
  }

  /** Every question of the list after the attach loop. */
  function AllAttached(qs: seq<Question>, d: Dict): (r: seq<Question>)
    requires forall k :: k in d.keys ==> k in d.lists
    ensures |r| == |qs| && forall i :: 0 <= i < |qs| ==> r[i] == ToolAttached(qs[i], d)
  {
    seq(|qs|, i requires 0 <= i < |qs| => ToolAttached(qs[i], d))
  }

  /**
   * The tool, from the text read back from the temporary file to the list it
   * writes out. The answer key (or the fallback text) goes to the prompt.
   */
  method StructureQuestionsTool(extractedText: string, answers: nat -> Outcome<Parsed<Question>>, d: Dict)
    returns (answerKeyText: string, finalData: seq<Question>)
    requires forall k :: k in d.keys ==> k in d.lists
    ensures var (examText, key) := SplitAnswerKey(extractedText);
            && answerKeyText == key
            && finalData == AllAttached(Splice(Present(ToolResults(ChunksOf(SplitOnHeaders(examText, false)), answers))), d)
  {
    var (examText, key) := SplitAnswerKey(extractedText);
    answerKeyText := key;
    var chunks := ChunkByQuestions(examText);
    var results := ProcessChunks(chunks, answers);
    var flat := FlattenResults(results);
    finalData := AttachToList(flat, d);
  }

  /** `asyncio.gather` over the chunks, one result per chunk in chunk order. */
  method ProcessChunks(chunks: seq<string>, answers: nat -> Outcome<Parsed<Question>>)
    returns (results: seq<Option<Parsed<Question>>>)
    ensures results == ToolResults(chunks, answers)
  {
    results := [];
    var i := 0;
    while i < |chunks|
      invariant 0 <= i <= |chunks| && |results| == i
      invariant forall j :: 0 <= j < i ==> results[j] == ToolChunkResult(chunks[j], answers(j))
    {
      results := results + [ToolChunkResult(chunks[i], answers(i))];
      i := i + 1;
    }
  }

  /** The list of questions, updated in place by the attach loop. */
  method AttachToList(flat: seq<Question>, d: Dict) returns (finalData: seq<Question>)
    requires forall k :: k in d.keys ==> k in d.lists
    ensures finalData == AllAttached(flat, d)
  {
    var arr := new Question[|flat|](j requires 0 <= j < |flat| => flat[j]);
    AttachImages(arr, d);
    finalData := arr[..];
  }

  /**
   * Since every chunk of the case-sensitive split carries the marker, the
   * tool keeps exactly the chunks whose model call succeeded.
   */
  lemma ToolKeepsSuccessfulChunks(examText: string, answers: nat -> Outcome<Parsed<Question>>, i: nat)
    requires i < |ChunksOf(SplitOnHeaders(examText, false))|
    ensures var r := ToolResults(ChunksOf(SplitOnHeaders(examText, false)), answers)[i];
            r.Some? <==> answers(i).Success?
  {
    CaseSensitiveChunksPassGuard(examText, i);
  }

  /**
   * When every call answers with one question, the tool returns one question
   * per successful chunk, in chunk order.
   */
  lemma SingleAnswersGiveOnePerSuccess(chunks: seq<string>, answers: nat -> Outcome<Parsed<Question>>)
    requires forall i :: 0 <= i < |chunks| && answers(i).Success? ==> answers(i).value.Single?
    ensures var ps := Present(ToolResults(chunks, answers));
            && (forall j :: 0 <= j < |ps| ==> ps[j].Single?)
            && |Splice(ps)| == |ps| && forall j :: 0 <= j < |ps| ==> Splice(ps)[j] == ps[j].item
  {
    var rs := ToolResults(chunks, answers);
    PresentAllSingle(rs);
    SpliceSingles(Present(rs));
  }

  /** Filtering keeps only present values, so a property of every present result survives it. */
  lemma {:induction false} PresentAllSingle(rs: seq<Option<Parsed<Question>>>)
    requires forall i :: 0 <= i < |rs| && rs[i].Some? ==> rs[i].value.Single?
    ensures forall j :: 0 <= j < |Present(rs)| ==> Present(rs)[j].Single?
    decreases |rs|
  {
    if rs != [] {
      PresentAllSingle(rs[..|rs| - 1]);
    }
  }
}
