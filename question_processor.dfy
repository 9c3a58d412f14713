/**
 * `QuestionProcessor` (src/processors/question_processor.py): cutting the
 * exam text into question chunks at the header pattern, splitting off the
 * answer key, turning each chunk into a question with the model (retried,
 * with backoff), flattening the results in order, and attaching image lists
 * to the questions that have images.
 */
module QuestionProcessor {
  import opened Wrappers
  import opened Strings
  import opened RegexSplit
  import opened Headers
  import opened ExamExtractor
  import opened QuestionId
  import opened Dispatch

  // ---------------------------------------------------------------------------
  // `re.sub(r"\n{3,}", "\n\n", s)`
  // ---------------------------------------------------------------------------

  predicate IsNewline(c: char) {
    c == '\n'
  }

  /** `\n{3,}`: a run of three or more newlines, taken whole. */
  function NewlineRunMatcher(): Matcher {
    (t: string, i: nat) => if i <= |t| && RunLength(t, i, IsNewline) >= 3 then RunLength(t, i, IsNewline) else 0
  }

  /** The replacement, a blank line. */
  function ParagraphBreak(): Replacer {
    (t: string, i: nat) => "\n\n"
  }

  lemma NewlineRunInBounds()
    ensures InBounds(NewlineRunMatcher())
  {
  }

  /** Runs of three or more newlines become exactly two. */
  function CollapseNewlines(s: string): string {
    NewlineRunInBounds();
    Sub(NewlineRunMatcher(), ParagraphBreak(), s)
  }

  /** No three newlines in a row. */
  predicate NoTripleNewline(s: string) {
    forall k :: 0 <= k < |s| - 2 ==> !(s[k] == '\n' && s[k + 1] == '\n' && s[k + 2] == '\n')
  }

  /** The pattern matches exactly where three newlines start. */
  lemma NewlineRunAt(t: string, i: nat)
    requires i <= |t|
    ensures NewlineRunMatcher()(t, i) > 0 <==> (i + 2 < |t| && t[i] == '\n' && t[i + 1] == '\n' && t[i + 2] == '\n')
  {
    if i < |t| && t[i] == '\n' {
      if i + 1 < |t| && t[i + 1] == '\n' {
        assert RunLength(t, i, IsNewline) == 2 + RunLength(t, i + 2, IsNewline);
      } else {
        assert RunLength(t, i, IsNewline) == 1;
      }
    }
  }

  /** A text without a triple newline has no match. */
  lemma NoTripleIsNoMatch(t: string)
    ensures NoTripleNewline(t) <==> NoMatch(NewlineRunMatcher(), t)
  {
    var m := NewlineRunMatcher();
    if NoTripleNewline(t) {
      forall j | 0 <= j <= |t| ensures m(t, j) == 0 {
        NewlineRunAt(t, j);
      }
    }
    if NoMatch(m, t) {
      forall k | 0 <= k < |t| - 2 ensures !(t[k] == '\n' && t[k + 1] == '\n' && t[k + 2] == '\n') {
        NewlineRunAt(t, k);
        assert m(t, k) == 0;
      }
    }
  }

  /**
   * Two pieces without triple newlines, the first not ending and the second
   * not starting with a newline, joined by a blank line.
   */
  lemma NoTripleJoin(a: string, b: string)
    requires NoTripleNewline(a) && NoTripleNewline(b)
    requires a == [] || a[|a| - 1] != '\n'
    requires b == [] || b[0] != '\n'
    ensures NoTripleNewline(a + "\n\n" + b)
  {
    var r := a + "\n\n" + b;
    forall k | 0 <= k < |r| - 2 ensures !(r[k] == '\n' && r[k + 1] == '\n' && r[k + 2] == '\n') {
      if k + 2 < |a| {
        assert r[k] == a[k] && r[k + 1] == a[k + 1] && r[k + 2] == a[k + 2];
      } else if k < |a| {
        assert r[|a| - 1] == a[|a| - 1];
      } else if k < |a| + 2 {
        assert r[|a| + 2] == b[0];
      } else {
        assert r[k] == b[k - |a| - 2] && r[k + 1] == b[k - |a| - 1] && r[k + 2] == b[k - |a|];
      }
    }
  }

  /** The text before the leftmost run neither holds a triple newline nor ends with a newline. */
  lemma BeforeFirstRun(t: string, i: nat)
    requires Search(NewlineRunMatcher(), t) == Some(i)
    ensures NoTripleNewline(t[..i]) && (i == 0 || t[i - 1] != '\n')
  {
    var m := NewlineRunMatcher();
    FirstMatchFromLeftmost(m, t, 0);
    NewlineRunAt(t, i);
    forall k | 0 <= k < i - 2 ensures !(t[..i][k] == '\n' && t[..i][k + 1] == '\n' && t[..i][k + 2] == '\n') {
      NewlineRunAt(t, k);
    }
    if i > 0 {
      NewlineRunAt(t, i - 1);
    }
  }

  /**
   * After the substitution no three newlines follow each other, and a text
   * that does not start with a newline keeps its first character.
   */
  lemma {:induction false} CollapseNewlinesFacts(t: string)
    ensures NoTripleNewline(CollapseNewlines(t))
    ensures t == [] ==> CollapseNewlines(t) == []
    ensures t != [] && t[0] != '\n' ==> CollapseNewlines(t) != [] && CollapseNewlines(t)[0] == t[0]
    decreases |t|
  {
    var m := NewlineRunMatcher();
    NewlineRunInBounds();
    match Search(m, t)
    case None =>
      SearchNoneIff(m, t);
      NoTripleIsNoMatch(t);
    case Some(i) =>
      var n := m(t, i);
      var rest := t[i + n..];
      RunFacts(t, i, IsNewline);
      assert n == RunLength(t, i, IsNewline);
      assert rest == [] || rest[0] != '\n';
      CollapseNewlinesFacts(rest);
      BeforeFirstRun(t, i);
      NoTripleJoin(t[..i], CollapseNewlines(rest));
      if t != [] && t[0] != '\n' {
        NewlineRunAt(t, 0);
        assert i > 0;
      }
  }

  /** Collapsing twice is collapsing once, and a text without triple newlines is unchanged. */
  lemma CollapseNewlinesIdempotent(t: string)
    ensures NoTripleNewline(t) ==> CollapseNewlines(t) == t
    ensures CollapseNewlines(CollapseNewlines(t)) == CollapseNewlines(t)
  {
    NewlineRunInBounds();
    CollapseNewlinesFacts(t);
    var c := CollapseNewlines(t);
    NoTripleIsNoMatch(c);
    SubOfNoMatch(NewlineRunMatcher(), ParagraphBreak(), c);
    NoTripleIsNoMatch(t);
    if NoTripleNewline(t) {
      SubOfNoMatch(NewlineRunMatcher(), ParagraphBreak(), t);
    }
  }

  // ---------------------------------------------------------------------------
  // `split_into_questions` (and `_chunk_by_questions` in src/tools.py)
  // ---------------------------------------------------------------------------

  /** `f"{header}\n{clean_content}"`: the header, then the stripped body with its newline runs collapsed. */
  function QuestionChunk(header: string, body: string): string {
    header + "\n" + CollapseNewlines(Strip(body))
  }

  /** One chunk per header, pairing each header with the text that follows it. */
  function ChunksOf(parts: seq<string>): (chunks: seq<string>)
    requires |parts| % 2 == 1
    ensures |chunks| == |parts| / 2
    ensures forall k :: 0 <= k < |chunks| ==> chunks[k] == QuestionChunk(parts[2 * k + 1], parts[2 * k + 2])
  {
    seq(|parts| / 2, k requires 0 <= k < |parts| / 2 => QuestionChunk(parts[2 * k + 1], parts[2 * k + 2]))
  }

  /**
   * The split-and-collect loop, for the case-insensitive pattern of
   * `QuestionProcessor` (`ignoreCase`) or the case-sensitive one of
   * `_chunk_by_questions`.
   */
  method SplitIntoQuestions(text: string, ignoreCase: bool) returns (chunks: seq<string>)
    ensures chunks == ChunksOf(SplitOnHeaders(text, ignoreCase))
  {
    var parts := SplitOnHeaders(text, ignoreCase);
    chunks := [];
    var i := 1;
    ghost var k := 0;
    while i < |parts|
      invariant i == 2 * k + 1 && i <= |parts|
      invariant chunks == ChunksOf(parts)[..k]
    {
      if i + 1 < |parts| {
        var header := parts[i];
        var content := parts[i + 1];
        var cleanContent := CollapseNewlines(Strip(content));
        assert header + "\n" + cleanContent == ChunksOf(parts)[k];
        PrefixSnoc(ChunksOf(parts), k);
        chunks := chunks + [header + "\n" + cleanContent];
      }
      i := i + 2;
      k := k + 1;
    }
    assert chunks == ChunksOf(parts);
  }

  lemma PrefixSnoc<T>(s: seq<T>, k: nat)
    requires k < |s|
    ensures s[..k + 1] == s[..k] + [s[k]]
  {
  }

  /**
   * Chunk `k` starts with the `k`-th header match, in text order, followed by
   * a newline; its body holds no triple newline. The text before the first
   * header is in no chunk.
   */
  lemma ChunkLayout(text: string, ignoreCase: bool, k: nat)
    requires k < |ChunksOf(SplitOnHeaders(text, ignoreCase))|
    ensures var parts := SplitOnHeaders(text, ignoreCase);
            var h := MatchesOf(parts)[k];
            var c := ChunksOf(parts)[k];
            && IsHeaderText(h, ignoreCase)
            && c[..|h| + 1] == h + "\n"
            && NoTripleNewline(c[|h| + 1..])
  {
    var parts := SplitOnHeaders(text, ignoreCase);
    SplitHeaderParts(text, ignoreCase, 2 * k + 1);
    CollapseNewlinesFacts(Strip(parts[2 * k + 2]));
    var h := parts[2 * k + 1];
    var c := ChunksOf(parts)[k];
    assert c[..|h| + 1] == h + "\n";
    assert c[|h| + 1..] == CollapseNewlines(Strip(parts[2 * k + 2]));
  }

  /** As many chunks as header matches, and none for a text without a header. */
  lemma ChunkCount(text: string, ignoreCase: bool)
    ensures |ChunksOf(SplitOnHeaders(text, ignoreCase))| == |MatchesOf(SplitOnHeaders(text, ignoreCase))|
    ensures HeaderFree(text, ignoreCase) ==> ChunksOf(SplitOnHeaders(text, ignoreCase)) == []
  {
    if HeaderFree(text, ignoreCase) {
      SplitWithoutHeader(text, ignoreCase);
    }
  }

  // ---------------------------------------------------------------------------
  // `split_answer_key` (and the same split in `structure_questions` of src/tools.py)
  // ---------------------------------------------------------------------------

  /** `CONFIG.question.answer_key_separator`. */
  const AnswerKeyMark := "--- Answer Key ---"

  /** The placeholder used when the text has no separator. */
  const NoAnswerKey := "No answer key found."

  /** `text.split(separator, 1)`: the text before the first separator and the text after it. */
  function SplitAnswerKey(text: string): (r: (string, string))
    ensures Find(text, AnswerKeyMark).None? ==> r == (text, NoAnswerKey)
    ensures Find(text, AnswerKeyMark).Some? ==> r.0 + AnswerKeyMark + r.1 == text && !Contains(r.0, AnswerKeyMark)
  {
    match Find(text, AnswerKeyMark)
    case None => (text, NoAnswerKey)
    case Some(i) =>
      FindIsLeftmost(text, AnswerKeyMark);
      FirstOccurrenceClean(text, i);
      (text[..i], text[i + |AnswerKeyMark|..])
  }

  /** The text before the leftmost occurrence does not contain the separator. */
  lemma FirstOccurrenceClean(text: string, i: nat)
    requires OccursAt(text, AnswerKeyMark, i)
    requires forall j :: 0 <= j < i ==> !OccursAt(text, AnswerKeyMark, j)
    ensures !Contains(text[..i], AnswerKeyMark)
    ensures text[..i] + AnswerKeyMark + text[i + |AnswerKeyMark|..] == text
  {
    ContainsIff(text[..i], AnswerKeyMark);
    forall j: nat | OccursAt(text[..i], AnswerKeyMark, j) ensures OccursAt(text, AnswerKeyMark, j) {
      assert text[..i][j..j + |AnswerKeyMark|] == text[j..j + |AnswerKeyMark|];
    }
    assert text[i..i + |AnswerKeyMark|] == AnswerKeyMark;
  }

  /**
   * The separator `extract_exam_text` puts between exam and key by default is
   * found again by `split_answer_key`, provided the exam text does not itself
   * contain the marker: the exam comes back with the separator's leading blank
   * line, the key with its trailing one.
   */
  lemma SeparatorSplitsBack(examText: string, keyText: string)
    requires !Contains(examText, AnswerKeyMark)
    ensures SplitAnswerKey(examText + AnswerKeySeparator + keyText) == (examText + "\n\n", "\n\n" + keyText)
  {
    var text := examText + AnswerKeySeparator + keyText;
    var p := |examText| + 2;
    var m := |AnswerKeyMark|;
    SeparatorLayout(examText, keyText);
    ContainsAt(text, AnswerKeyMark, p);
    FindIsLeftmost(text, AnswerKeyMark);
    var i := Find(text, AnswerKeyMark).value;
    if i < p {
      NoMarkBeforeSeparator(examText, keyText, i);
    }
    assert text[..p] == examText + "\n\n";
    assert text[p + m..] == "\n\n" + keyText;
  }

  /** Where the marker sits in the combined text. */
  lemma SeparatorLayout(examText: string, keyText: string)
    ensures var text := examText + AnswerKeySeparator + keyText;
            text == (examText + "\n\n") + AnswerKeyMark + ("\n\n" + keyText)
            && OccursAt(text, AnswerKeyMark, |examText| + 2)
  {
    var text := examText + AnswerKeySeparator + keyText;
    assert AnswerKeySeparator == "\n\n" + AnswerKeyMark + "\n\n";
    assert text == (examText + "\n\n") + AnswerKeyMark + ("\n\n" + keyText);
    assert text[|examText| + 2..|examText| + 2 + |AnswerKeyMark|] == AnswerKeyMark;
  }

  /** The marker is on one line. */
  lemma MarkHasNoNewline(k: nat)
    requires k < |AnswerKeyMark|
    ensures AnswerKeyMark[k] != '\n'
  {
  }

  /** No marker starts before the separator's own when the exam text has none. */
  lemma NoMarkBeforeSeparator(examText: string, keyText: string, i: nat)
    requires !Contains(examText, AnswerKeyMark)
    requires i < |examText| + 2
    ensures !OccursAt(examText + AnswerKeySeparator + keyText, AnswerKeyMark, i)
  {
    var text := examText + AnswerKeySeparator + keyText;
    var m := |AnswerKeyMark|;
    SeparatorLayout(examText, keyText);
    if OccursAt(text, AnswerKeyMark, i) {
      if i + m <= |examText| {
        assert examText[i..i + m] == text[i..i + m];
        ContainsAt(examText, AnswerKeyMark, i);
      } else {
        var q := if i < |examText| then |examText| else i;
        assert text[q] == '\n';
        assert AnswerKeyMark[q - i] == text[q];
        MarkHasNoNewline(q - i);
      }
    }
  }

  // ---------------------------------------------------------------------------
  // `process_question_chunk`
  // ---------------------------------------------------------------------------

  /** The fields of a structured question that the pipeline reads or writes. */
  datatype Question = Question(question: string, image: bool, images: seq<string>, passageText: string,
                               sources: seq<string>, questionId: Option<string>)

  /** The exam fields `build_question_id` is called with. */
  datatype ExamProfile = ExamProfile(nameBase: string, acronym: Option<string>, variant: string, year: int)

  /**
   * The end of a successful model call: the number is read from the
   * question's label and the id built from it. A label without a number
   * raises inside the `try`, so the attempt counts as failed.
   */
  function Identify(q: Question, profile: ExamProfile, sha: Hasher): (r: Outcome<Question>)
    ensures r.Success? <==> ExtractQuestionNumber(q.question).Ok?
  {
    match ExtractQuestionNumber(q.question)
    case Err(_) => Failure
    case Ok(n) =>
      Success(q.(questionId := Some(BuildQuestionId(profile.nameBase, profile.acronym, profile.variant, profile.year, n, sha))))
  }

  /** Attempt `k`: the model's `k`-th answer, parsed and validated or failed, then identified. */
  function ChunkAttempt(model: nat -> Outcome<Question>, profile: ExamProfile, sha: Hasher): nat -> Outcome<Question> {
    (k: nat) => match model(k) case Failure => Failure case Success(q) => Identify(q, profile, sha)
  }

  /** What `process_question_chunk` returns for a chunk. */
  function ChunkResult(chunk: string, model: nat -> Outcome<Question>, profile: ExamProfile, sha: Hasher,
                       maxRetries: int): Option<Question>
  {
    if !Contains(chunk, Marker) then None else RetryResult(ChunkAttempt(model, profile, sha), maxRetries)
  }

  /** A chunk's result is the question of a successful attempt numbered 1 to `max_retries`. */
  lemma ChunkResultIsAttempt(chunk: string, model: nat -> Outcome<Question>, profile: ExamProfile, sha: Hasher,
                             maxRetries: int)
    requires ChunkResult(chunk, model, profile, sha, maxRetries).Some?
    ensures exists k :: 1 <= k <= maxRetries
              && ChunkAttempt(model, profile, sha)(k) == Success(ChunkResult(chunk, model, profile, sha, maxRetries).value)
  {
    var k := FirstSuccess(ChunkAttempt(model, profile, sha), 1, maxRetries).value;
    assert ChunkAttempt(model, profile, sha)(k) == Success(ChunkResult(chunk, model, profile, sha, maxRetries).value);
  }

  /**
   * `process_question_chunk`: a chunk without the exact, upper-case marker
   * gives None without a model call; otherwise the retry loop runs.
   */
  method ProcessQuestionChunk(chunk: string, model: nat -> Outcome<Question>, profile: ExamProfile, sha: Hasher,
                              maxRetries: int, retryBaseDelay: real)
    returns (result: Option<Question>, attempts: nat, delays: seq<real>)
    ensures result == ChunkResult(chunk, model, profile, sha, maxRetries)
    ensures !Contains(chunk, Marker) ==> attempts == 0 && delays == []
    ensures Contains(chunk, Marker) ==>
      attempts == AttemptsMade(ChunkAttempt(model, profile, sha), maxRetries)
      && delays == Backoff(retryBaseDelay, if attempts == 0 then 0 else attempts - 1)
  {
    if !Contains(chunk, Marker) {
      return None, 0, [];
    }
    result, attempts, delays := RetryWithBackoff(maxRetries, retryBaseDelay, ChunkAttempt(model, profile, sha));
  }

  /**
   * A returned question is the model's answer of the last attempt made, with
   * its id set from the number in its own label.
   */
  lemma ProcessedQuestionIdentified(chunk: string, model: nat -> Outcome<Question>, profile: ExamProfile, sha: Hasher,
                                    maxRetries: int)
    requires ChunkResult(chunk, model, profile, sha, maxRetries).Some?
    ensures var k := AttemptsMade(ChunkAttempt(model, profile, sha), maxRetries);
            && Contains(chunk, Marker) && 1 <= k <= maxRetries
            && model(k).Success?
            && ExtractQuestionNumber(model(k).value.question).Ok?
            && ChunkResult(chunk, model, profile, sha, maxRetries).value
               == model(k).value.(questionId := Some(BuildQuestionId(profile.nameBase, profile.acronym, profile.variant,
                                                                     profile.year,
                                                                     ExtractQuestionNumber(model(k).value.question).value,
                                                                     sha)))
  {
    var call := ChunkAttempt(model, profile, sha);
    RetryOutcome(call, maxRetries);
    var k := AttemptsMade(call, maxRetries);
    assert call(k).Success?;
  }

  /**
   * When no answer of the model carries a digit in its label, every attempt
   * fails and the chunk gives None after `max_retries` calls.
   */
  lemma UnnumberedAnswersFail(chunk: string, model: nat -> Outcome<Question>, profile: ExamProfile, sha: Hasher,
                              maxRetries: int)
    requires forall k :: 1 <= k <= maxRetries && model(k).Success? ==> !HasDigit(model(k).value.question)
    ensures ChunkResult(chunk, model, profile, sha, maxRetries).None?
    ensures AttemptsMade(ChunkAttempt(model, profile, sha), maxRetries) == (if maxRetries > 0 then maxRetries else 0)
  {
    var call := ChunkAttempt(model, profile, sha);
    forall k | 1 <= k <= maxRetries ensures call(k).Failure? {
      if model(k).Success? {
        ExtractSucceedsIffDigit(model(k).value.question);
      }
    }
    RetryExhausted(call, maxRetries);
  }

  /** With the case-sensitive pattern every chunk carries the marker, so none is turned away. */
  lemma CaseSensitiveChunksPassGuard(text: string, k: nat)
    requires k < |ChunksOf(SplitOnHeaders(text, false))|
    ensures Contains(ChunksOf(SplitOnHeaders(text, false))[k], Marker)
  {
    ChunkLayout(text, false, k);
    var parts := SplitOnHeaders(text, false);
    var h := MatchesOf(parts)[k];
    var c := ChunksOf(parts)[k];
    CaseSensitiveHeaderHasMarker(h);
    MarkerAtIff(h, 0, false);
    assert c[..|Marker|] == h[..|Marker|];
    ContainsPrefix(c, Marker);
  }

  /**
   * A chunk with no upper-case `Ã` in it, such as one whose header the
   * case-insensitive split found as `Questão 1`, is turned away without a
   * model call.
   */
  lemma {:induction false} ChunkWithoutUpperMarkerDropped(chunk: string, model: nat -> Outcome<Question>,
                                                         profile: ExamProfile, sha: Hasher, maxRetries: int)
    requires forall i :: 0 <= i < |chunk| ==> chunk[i] != 'Ã'
    ensures ChunkResult(chunk, model, profile, sha, maxRetries) == None
  {
    forall j: nat ensures !OccursAt(chunk, Marker, j) {
      if j + |Marker| <= |chunk| {
        assert chunk[j..j + |Marker|][5] == chunk[j + 5];
        assert Marker[5] == 'Ã';
      }
    }
    ContainsIff(chunk, Marker);
  }

  // ---------------------------------------------------------------------------
  // Flattening the results (`structure_questions`)
  // ---------------------------------------------------------------------------

  /** A parsed answer: one object, or a list of them. */
  datatype Parsed<T> = Single(item: T) | Many(items: seq<T>)

  /** `[res for res in results if res is not None]`. */
  function Present<T>(results: seq<Option<T>>): (r: seq<T>)
    ensures |r| <= |results|
  {
    if results == [] then []
    else Present(results[..|results| - 1]) + (match results[|results| - 1] case Some(x) => [x] case None => [])
  }

  function ItemsOf<T>(p: Parsed<T>): seq<T> {
    match p
    case Single(x) => [x]
    case Many(xs) => xs
  }

  /** A list is spliced in place, a single object appended. */
  function Splice<T>(ps: seq<Parsed<T>>): seq<T> {
    if ps == [] then [] else Splice(ps[..|ps| - 1]) + ItemsOf(ps[|ps| - 1])
  }

  /** The filter, then the `extend`/`append` loop. */
  method FlattenResults<T>(results: seq<Option<Parsed<T>>>) returns (finalData: seq<T>)
    ensures finalData == Splice(Present(results))
  {
    var valid := Present(results);
    finalData := [];
    var i := 0;
    while i < |valid|
      invariant 0 <= i <= |valid|
      invariant finalData == Splice(valid[..i])
    {
      assert valid[..i + 1][..i] == valid[..i];
      if valid[i].Many? {
        finalData := finalData + valid[i].items;
      } else {
        finalData := finalData + [valid[i].item];
      }
      i := i + 1;
    }
    assert valid[..i] == valid;
  }

  /** Filtering and splicing both distribute over concatenation, so the order is kept. */
  lemma {:induction false} PresentConcat<T>(a: seq<Option<T>>, b: seq<Option<T>>)
    ensures Present(a + b) == Present(a) + Present(b)
    decreases |b|
  {
    if b != [] {
      PresentConcat(a, b[..|b| - 1]);
      assert (a + b)[..|a + b| - 1] == a + b[..|b| - 1];
      assert (a + b)[|a + b| - 1] == b[|b| - 1];
    } else {
      assert a + b == a;
    }
  }

  lemma {:induction false} SpliceConcat<T>(a: seq<Parsed<T>>, b: seq<Parsed<T>>)
    ensures Splice(a + b) == Splice(a) + Splice(b)
    decreases |b|
  {
    if b != [] {
      SpliceConcat(a, b[..|b| - 1]);
      assert (a + b)[..|a + b| - 1] == a + b[..|b| - 1];
      assert (a + b)[|a + b| - 1] == b[|b| - 1];
    } else {
      assert a + b == a;
    }
  }

  /** An item is in the flattened list exactly when some present result holds it. */
  lemma {:induction false} SpliceMembers<T>(ps: seq<Parsed<T>>, x: T)
    ensures x in Splice(ps) <==> exists i :: 0 <= i < |ps| && x in ItemsOf(ps[i])
    decreases |ps|
  {
    if ps != [] {
      var init := ps[..|ps| - 1];
      SpliceMembers(init, x);
      if x in Splice(init) {
        var i :| 0 <= i < |init| && x in ItemsOf(init[i]);
        assert ps[i] == init[i];
      }
      if exists i :: 0 <= i < |ps| && x in ItemsOf(ps[i]) {
        var i :| 0 <= i < |ps| && x in ItemsOf(ps[i]);
        if i < |init| {
          assert init[i] == ps[i];
        }
      }
    }
  }

  /** Without lists, flattening only drops the Nones: one item per present result, in order. */
  lemma {:induction false} SpliceSingles<T>(ps: seq<Parsed<T>>)
    requires forall i :: 0 <= i < |ps| ==> ps[i].Single?
    ensures |Splice(ps)| == |ps| && forall i :: 0 <= i < |ps| ==> Splice(ps)[i] == ps[i].item
    decreases |ps|
  {
    if ps != [] {
      SpliceSingles(ps[..|ps| - 1]);
    }
  }

  /**
   * `structure_questions`: `asyncio.gather` runs the chunks and keeps their
   * order; here chunk `i` gets the answers of `models(i)`. `process_question_chunk`
   * never returns a list, so every present result is one question.
   */
  method StructureQuestions(chunks: seq<string>, models: nat -> (nat -> Outcome<Question>), profile: ExamProfile,
                            sha: Hasher, maxRetries: int, retryBaseDelay: real)
    returns (finalData: seq<Question>)
    ensures finalData == Present(ChunkResults(chunks, models, profile, sha, maxRetries, |chunks|))
  {
    var results := GatherChunks(chunks, models, profile, sha, maxRetries, retryBaseDelay);
    finalData := FlattenResults(results);
    PresentOfWrapped(ChunkResults(chunks, models, profile, sha, maxRetries, |chunks|));
  }

  /** `asyncio.gather` over the chunks: one object per chunk, in chunk order. */
  method GatherChunks(chunks: seq<string>, models: nat -> (nat -> Outcome<Question>), profile: ExamProfile,
                      sha: Hasher, maxRetries: int, retryBaseDelay: real)
    returns (results: seq<Option<Parsed<Question>>>)
    ensures results == WrapAll(ChunkResults(chunks, models, profile, sha, maxRetries, |chunks|))
  {
    results := [];
    var i := 0;
    while i < |chunks|
      invariant 0 <= i <= |chunks| && results == WrapAll(ChunkResults(chunks, models, profile, sha, maxRetries, i))
    {
      var result := WrappedChunk(chunks[i], models(i), profile, sha, maxRetries, retryBaseDelay);
      WrapAllSnoc(ChunkResults(chunks, models, profile, sha, maxRetries, i), ChunkResult(chunks[i], models(i), profile, sha, maxRetries));
      results := results + [result];
      i := i + 1;
    }
  }

  /** One chunk's `process_question_chunk`, as the one object `gather` collects for it. */
  method WrappedChunk(chunk: string, model: nat -> Outcome<Question>, profile: ExamProfile, sha: Hasher,
                      maxRetries: int, retryBaseDelay: real)
    returns (r: Option<Parsed<Question>>)
    ensures r == Wrapped(ChunkResult(chunk, model, profile, sha, maxRetries))
  {
    var result, _, _ := ProcessQuestionChunk(chunk, model, profile, sha, maxRetries, retryBaseDelay);
    r := Wrapped(result);
  }

  /** `f(0), ..., f(n - 1)`. */
  function Tabulate<T>(n: nat, f: nat -> T): (r: seq<T>)
    ensures |r| == n
  {
    if n == 0 then [] else Tabulate(n - 1, f) + [f(n - 1)]
  }

  lemma {:induction false} TabulateAt<T>(n: nat, f: nat -> T, i: nat)
    requires i < n
    ensures Tabulate(n, f)[i] == f(i)
  {
    if i < n - 1 {
      TabulateAt(n - 1, f, i);
    }
  }

  /** What `process_question_chunk` gives for chunk `k` (answered by `models(k)`); nothing past the last chunk. */
  ghost function ChunkOutcome(chunks: seq<string>, models: nat -> (nat -> Outcome<Question>), profile: ExamProfile,
                              sha: Hasher, maxRetries: int): nat -> Option<Question>
  {
    (k: nat) => if k < |chunks| then ChunkResult(chunks[k], models(k), profile, sha, maxRetries) else None
  }

  /** The results of the first `n` chunks, in chunk order. */
  ghost function ChunkResults(chunks: seq<string>, models: nat -> (nat -> Outcome<Question>), profile: ExamProfile,
                              sha: Hasher, maxRetries: int, n: nat): (r: seq<Option<Question>>)
    ensures |r| == n
  {
    Tabulate(n, ChunkOutcome(chunks, models, profile, sha, maxRetries))
  }

  /** Result `i` is chunk `i`'s, answered by `models(i)`. */
  lemma ChunkResultsAt(chunks: seq<string>, models: nat -> (nat -> Outcome<Question>),
                       profile: ExamProfile, sha: Hasher, maxRetries: int, n: nat, i: nat)
    requires i < n <= |chunks|
    ensures ChunkResults(chunks, models, profile, sha, maxRetries, n)[i] == ChunkResult(chunks[i], models(i), profile, sha, maxRetries)
  {
    TabulateAt(n, ChunkOutcome(chunks, models, profile, sha, maxRetries), i);
  }

  function Wrapped<T>(r: Option<T>): Option<Parsed<T>> {
    match r
    case Some(x) => Some(Single(x))
    case None => None
  }

  /** Each result wrapped as the one object `process_question_chunk` returns. */
  function WrapAll<T>(plain: seq<Option<T>>): (r: seq<Option<Parsed<T>>>)
    ensures |r| == |plain|
  {
    if plain == [] then [] else WrapAll(plain[..|plain| - 1]) + [Wrapped(plain[|plain| - 1])]
  }

  lemma WrapAllSnoc<T>(plain: seq<Option<T>>, x: Option<T>)
    ensures WrapAll(plain + [x]) == WrapAll(plain) + [Wrapped(x)]
  {
    assert (plain + [x])[..|plain|] == plain;
  }

  /** Wrapping each result as one object and flattening gives the present results back. */
  lemma {:induction false} PresentOfWrapped<T>(plain: seq<Option<T>>)
    ensures Splice(Present(WrapAll(plain))) == Present(plain)
    decreases |plain|
  {
    if plain != [] {
      var n := |plain| - 1;
      PresentOfWrapped(plain[..n]);
      var wrapped := WrapAll(plain);
      var ps := Present(WrapAll(plain[..n]));
      assert wrapped[..n] == WrapAll(plain[..n]);
      match plain[n]
      case None =>
        assert Present(wrapped) == ps;
      case Some(x) =>
        assert Present(wrapped) == ps + [Single(x)];
        assert Splice(ps + [Single(x)]) == Splice(ps) + [x];
    }
  }

  // ---------------------------------------------------------------------------
  // `attach_images_to_questions`
  // ---------------------------------------------------------------------------

  /** The first key, in insertion order, that occurs in the label. */
  function FirstKeyIn(keys: seq<string>, name: string): (r: Option<string>)
    ensures r.Some? ==> r.value in keys && Contains(name, r.value)
  {
    if keys == [] then None
    else if Contains(name, keys[0]) then Some(keys[0])
    else FirstKeyIn(keys[1..], name)
  }

  /** No earlier key occurs in the name, and with no result none does. */
  lemma {:induction false} FirstKeyInIsFirst(keys: seq<string>, name: string)
    ensures FirstKeyIn(keys, name).None? ==> forall j :: 0 <= j < |keys| ==> !Contains(name, keys[j])
    ensures FirstKeyIn(keys, name).Some? ==>
      exists i :: 0 <= i < |keys| && keys[i] == FirstKeyIn(keys, name).value
                  && forall j :: 0 <= j < i ==> !Contains(name, keys[j])
    decreases |keys|
  {
    if keys != [] && !Contains(name, keys[0]) {
      FirstKeyInIsFirst(keys[1..], name);
      if FirstKeyIn(keys, name).Some? {
        var i :| 0 <= i < |keys[1..]| && keys[1..][i] == FirstKeyIn(keys, name).value
                 && forall j :: 0 <= j < i ==> !Contains(name, keys[1..][j]);
        assert keys[i + 1] == keys[1..][i];
        forall j | 0 <= j < i + 1 ensures !Contains(name, keys[j]) {
          if j > 0 {
            assert keys[j] == keys[1..][j - 1];
          }
        }
      }
    } else if keys != [] {
      assert keys[0] == FirstKeyIn(keys, name).value;
    }
  }

  /** One question after the loop body: only a question with `image` set can change, and only its `images`. */
  function WithImages(q: Question, d: Dict): (r: Question)
    requires forall k :: k in d.keys ==> k in d.lists
    ensures r == q.(images := r.images)
    ensures !q.image ==> r == q
  {
    if !q.image then q
    else match FirstKeyIn(d.keys, q.question)
      case None => q
      case Some(k) => q.(images := d.lists[k])
  }

  /** The inner `for q_name, images in question_image_map.items()` loop with its `break`. */
  method FirstMatchingKey(d: Dict, name: string) returns (found: Option<string>)
    ensures found == FirstKeyIn(d.keys, name)
  {
    found := None;
    var j := 0;
    while j < |d.keys|
      invariant 0 <= j <= |d.keys|
      invariant FirstKeyIn(d.keys, name) == FirstKeyIn(d.keys[j..], name)
    {
      assert d.keys[j..][0] == d.keys[j];
      if Contains(name, d.keys[j]) {
        found := Some(d.keys[j]);
        return;
      }
      assert d.keys[j..][1..] == d.keys[j + 1..];
      j := j + 1;
    }
  }

  /** `attach_images_to_questions`: every question of the list is updated in place. */
  method AttachImagesToQuestions(questions: array<Question>, d: Dict)
    requires forall k :: k in d.keys ==> k in d.lists
    modifies questions
    ensures forall i :: 0 <= i < questions.Length ==> questions[i] == WithImages(old(questions[i]), d)
  {
    var i := 0;
    while i < questions.Length
      invariant 0 <= i <= questions.Length
      invariant forall j :: 0 <= j < i ==> questions[j] == WithImages(old(questions[j]), d)
      invariant forall j :: i <= j < questions.Length ==> questions[j] == old(questions[j])
    {
      var q := questions[i];
      if q.image {
        var key := FirstMatchingKey(d, q.question);
        if key.Some? {
          questions[i] := q.(images := d.lists[key.value]);
        }
      }
      i := i + 1;
    }
  }

  /** A question with `image` set takes the list of the first key, in insertion order, found in its name. */
  lemma WithImagesTakesFirstKey(q: Question, d: Dict)
    requires forall k :: k in d.keys ==> k in d.lists
    requires q.image
    ensures match FirstKeyIn(d.keys, q.question)
            case None => WithImages(q, d) == q
            case Some(k) => WithImages(q, d).images == d.lists[k]
                            && (forall j :: 0 <= j < |d.keys| && d.keys[j] != k && Contains(q.question, d.keys[j]) ==>
                                  exists i :: 0 <= i < j && d.keys[i] == k)
  {
    FirstKeyInIsFirst(d.keys, q.question);
    if FirstKeyIn(d.keys, q.question).Some? {
      var k := FirstKeyIn(d.keys, q.question).value;
      var i :| 0 <= i < |d.keys| && d.keys[i] == k && forall j :: 0 <= j < i ==> !Contains(q.question, d.keys[j]);
      forall j | 0 <= j < |d.keys| && d.keys[j] != k && Contains(q.question, d.keys[j])
        ensures exists i' :: 0 <= i' < j && d.keys[i'] == k
      {
        assert i < j;
      }
    }
  }

  /**
   * The three questions of tests/test_attach_images_to_question.py: the two
   * with `image` set take the list of their own label, the other is untouched.
   */
  lemma AttachExample()
    ensures var d := Dict(["question 01", "question 03"],
                          map["question 01" := ["http://example.com/image1.jpg"],
                              "question 03" := ["http://example.com/image2.jpg"]]);
            var q1 := Question("question 01", true, [], "", [], None);
            var q2 := Question("question 02", false, [], "", [], None);
            var q3 := Question("question 03", true, [], "", [], None);
            && WithImages(q1, d).images == ["http://example.com/image1.jpg"]
            && WithImages(q2, d) == q2
            && WithImages(q3, d).images == ["http://example.com/image2.jpg"]
  {
    var k1, k3 := "question 01", "question 03";
    ContainsPrefix(k1, k1);
    ContainsPrefix(k3, k3);
    assert !OccursAt(k3, k1, 0) by {
      assert k3[10] != k1[10];
    }
    assert FindFrom(k3, k1, 1).None?;
  }
}
