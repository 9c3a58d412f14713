# Exam PDF extraction pipeline, modelled in Dafny

The pipeline reads an entrance-exam PDF (ENEM, UFU, …) and its answer key, and cuts the text into one chunk per question. It then locates the images of each page and files each image under the question whose header sits above it. A language model structures every chunk into a question record, and each record gets a deterministic identifier.

This project models the sequential, deterministic part of that pipeline and proves what it promises:

- **Image-to-question mapping.** Module `ExamExtractor`, with the filter in `ImageExtractor` and the older copy in `LegacyImageExtraction`:
  - header names are canonical, and headers are sorted stably by height;
  - each image goes to the half-open band of exactly one header;
  - the filter is a chain of threshold checks;
  - the per-question file lists never hold a duplicate;
  - image occurrences are counted per xref.
- **Text shaping.**
  - `TextExtractor`: page-range clamping and page-marked text.
  - `TextProcessor`: line cleaning.
  - `QuestionProcessor` and `Tools`: the answer-key split and the question chunking; `Pipeline` shows that the split recovers the exam and key texts that `ExamExtractor.ExtractExamText` joined. These rest on a model of Python's `re.split`/`re.search`/`re.sub` in `RegexSplit` and of the header pattern `QUESTÃO\s+\d+` in `Headers`.
- **Question identifiers** (`QuestionId`): ASCII folding and slug normalisation, the variant rewrites, the ordered search for a question number, and the layout `base_year[_variant]_qNN_<hash8>`.
- **Model-call policy** (`Dispatch`, used by `QuestionProcessor`, `Tools` and `DiagnosticProcessor`):
  - at most `max_retries` attempts, with back-off `base·2^(k−1)` between them;
  - the chunk guard on the literal `QUESTÃO`;
  - order-preserving filtering and flattening of results;
  - in-place "first matching key wins" image attachment;
  - the concurrency cap.

Python behaviour that matters here is written out rather than assumed: `str.strip`, `splitlines`, `f"{n:02d}"`, `x or default`, the stable `list.sort`, and insertion-ordered dictionaries (`ExamExtractor.Dict`: a key sequence plus a map).

## Model

| member | source | states |
|---|---|---|
| Strings.TrimLeftBy | src/processors/text_processor.py:40 | what is left does not start with a stripped character and is no longer than the input |
| Strings.TrimLeftByFacts | src/processors/text_processor.py:40 | the left trim is a suffix of the input, and everything it removed is of the stripped class |
| Strings.TrimRightBy | src/processors/text_processor.py:40 | what is left does not end with a stripped character and is no longer than the input |
| Strings.TrimRightByFacts | src/processors/text_processor.py:40 | the right trim is a prefix of the input, and everything it removed is of the stripped class |
| Strings.StripBy | src/utils/build_question_id.py:33 | `s.strip(chars)` leaves nothing strippable at either end and leaves an already stripped string alone |
| Strings.StripByInfix | src/utils/build_question_id.py:33 | the strip is an infix of the input surrounded only by stripped characters |
| Strings.Strip | src/processors/text_processor.py:40 | `s.strip()` starts and ends with non-whitespace (or is empty) and is no longer than `s` |
| Strings.StripEmptyIff | src/processors/text_processor.py:40 | a string strips to "" exactly when it is all whitespace |
| Strings.StripOfStripped | src/processors/text_processor.py:40 | stripping a stripped string changes nothing |
| Strings.FindFromIsLeftmost | src/processors/question_processor.py:77 | the occurrence found from a position is the leftmost one there, and none is found only when none exists |
| Strings.FindIsLeftmost | src/processors/question_processor.py:77 | `find` returns the leftmost occurrence, and nothing only when the substring does not occur |
| Strings.ContainsIff | src/processors/question_processor.py:102 | `sub in s` holds exactly when `sub` occurs at some position |
| Strings.ContainsAt | src/processors/question_processor.py:102 | an occurrence at a known position makes `sub in s` true |
| Strings.ContainsPrefix | src/processors/question_processor.py:102 | a string that starts with `sub` contains it |
| Strings.ConcatAppend | src/extractors/text_extractor.py:79-82 | concatenating two lists of pieces is concatenating their concatenations |
| Strings.DigitChar | src/extractors/exam_extractor.py:91 | a digit value prints as an ASCII digit |
| Strings.DigitValue | src/extractors/exam_extractor.py:90 | an ASCII digit reads as a value below ten that prints back as the same digit |
| Strings.NatToString | src/utils/build_question_id.py:155 | `str(n)` is a non-empty run of digits with no leading zero |
| Strings.DigitsValueOfNatToString | src/extractors/exam_extractor.py:90 | `int(str(n)) == n` |
| Strings.DigitsValueLeadingZero | src/extractors/exam_extractor.py:88-90 | a leading zero does not change the value `int` reads |
| Strings.IntToString | src/utils/build_question_id.py:146 | `str(i)` is never empty |
| Strings.Format02 | src/extractors/exam_extractor.py:91 | `f"{n:02d}"` has at least two characters; for `n >= 0` it is digits whose value is `n`; for `n < 0` it starts with '-' |
| Strings.Format02Sign | src/utils/build_question_id.py:144 | the field starts with '-' exactly when the number is negative |
| Strings.Format02Injective | src/extractors/exam_extractor.py:91 | different numbers never print the same two-digit field |
| Strings.NatToStringInjective | src/utils/build_question_id.py:155 | different naturals never print the same |
| Strings.IntToStringInjective | src/utils/build_question_id.py:146 | `str` on integers is injective |
| Strings.DigitRunLength | src/extractors/exam_extractor.py:88 | the greedy `\d+` run stays inside the text |
| Strings.DigitRunFacts | src/extractors/exam_extractor.py:88 | the digit run is all digits and maximal |
| Strings.SpaceRunLength | src/config.py:84 | the greedy `\s+` run stays inside the text |
| Strings.SpaceRunFacts | src/config.py:84 | the whitespace run is all whitespace and maximal |
| Strings.RunLength | src/utils/build_question_id.py:28 | a greedy run of one character class stays inside the text |
| Strings.RunToEnd | src/utils/build_question_id.py:28 | a text that is all of the class from `i` on has its run reach the end |
| Strings.RunFacts | src/utils/build_question_id.py:28 | the run is made of class characters and is maximal |
| Strings.LowerAsciiString | src/extractors/text_extractor.py:64 | lower-casing keeps the length and lower-cases each character |
| RegexSplit.FirstMatchFrom | src/extractors/exam_extractor.py:86 | a match found from a position lies at or after it and inside the text |
| RegexSplit.FirstMatchFromLeftmost | src/extractors/exam_extractor.py:86 | the match found is the leftmost one, and none is found only when nothing matches |
| RegexSplit.Search | src/extractors/exam_extractor.py:86 | `pattern.search` returns a position where the pattern matches |
| RegexSplit.SearchNoneIff | src/extractors/exam_extractor.py:86 | `search` finds nothing exactly when nothing matches anywhere |
| RegexSplit.Split | src/processors/question_processor.py:58 | `pattern.split` with one capturing group returns an odd number of parts |
| RegexSplit.SplitStep | src/processors/question_processor.py:58 | the split is the text before the leftmost match, the matched text, then the split of the rest |
| RegexSplit.SplitJoins | src/processors/question_processor.py:58 | joining the parts gives back the text |
| RegexSplit.SplitMatchPart | src/processors/question_processor.py:58 | every odd-indexed part is the text of a match |
| RegexSplit.PreambleNoMatch | src/processors/question_processor.py:58 | the text before the leftmost match holds no match |
| RegexSplit.SplitGapPart | src/processors/question_processor.py:58 | no even-indexed part contains a match |
| RegexSplit.SplitOfNoMatch | src/processors/question_processor.py:58 | a text without a match splits into itself alone |
| RegexSplit.MatchesOf | src/processors/question_processor.py:61-63 | the headers are the odd-indexed parts, in order, one per match |
| RegexSplit.Sub | src/utils/build_question_id.py:56 | `pattern.sub(repl, t)`: the leftmost match is replaced and the scan resumes after it; `SubKeepsClass`, `SubOfNoMatch` and `SubOfWholeMatch` state its behaviour |
| RegexSplit.SubKeepsClass | src/utils/build_question_id.py:55-56 | `re.sub` with replacements inside a character class keeps a text inside it |
| RegexSplit.SubOfNoMatch | src/processors/question_processor.py:65 | `re.sub` changes nothing where nothing matches |
| RegexSplit.SubOfWholeMatch | src/utils/build_question_id.py:55-56 | a match covering the whole text is replaced as a whole |
| Headers.MarkerFromIff | src/config.py:84 | the recursive literal check agrees with the character-by-character one |
| Headers.MarkerAtIff | src/config.py:84 | `QUESTÃO` matches at `i` exactly when each of its seven letters does, with case folding under IGNORECASE |
| Headers.HeaderLenAt | src/config.py:84 | a match of `QUESTÃO\s+\d+` stays in the text, is longer than the literal plus one space, and starts with the literal |
| Headers.MarkerAtSame | src/config.py:84 | whether the literal matches depends only on the seven characters it covers |
| Headers.HeaderTextAt | src/config.py:84 | the literal, a whitespace run and a digit run together form a header text |
| Headers.MatchIsHeaderText | src/config.py:84 | the text of a match is a header text |
| Headers.HeaderMatcherSound | src/config.py:84 | header matches stay in the text, and a match in a prefix is a match in the whole text |
| Headers.SearchHeader | src/extractors/exam_extractor.py:86 | the position found is a header match |
| Headers.SpanHeaderName | src/extractors/exam_extractor.py:86-91 | a span that yields a name yields a canonical "QUESTÃO NN" name |
| Headers.SpanHeaderNameIff | src/extractors/exam_extractor.py:86-89 | a span yields a name exactly when the case-insensitive pattern matches somewhere in it |
| Headers.CanonicalNameInjective | src/extractors/exam_extractor.py:90-91 | two canonical names are equal exactly when the numbers are, so "QUESTÃO 1" and "QUESTÃO 01" share a key |
| Headers.MarkerAtStart | src/config.py:84 | a text starting with the literal matches it at 0 in either case mode |
| Headers.CanonicalNameRoundTrip | src/extractors/exam_extractor.py:86-91 | a canonical name read as a span yields itself |
| Headers.DigitRunToEnd | src/config.py:84 | an all-digit tail is one digit run |
| Headers.SpaceRunOfPrefix | src/config.py:84 | a whitespace run ending inside a prefix is the same run in the whole text |
| Headers.MatchInPrefix | src/config.py:84 | a header match in a prefix is a match in the whole text |
| Headers.HeaderFreeIsNoMatch | src/config.py:84 | a text is header-free exactly when the matcher matches nowhere |
| Headers.SplitOnHeaders | src/processors/question_processor.py:58 | splitting on the capturing header pattern gives an odd number of parts |
| Headers.SplitConcat | src/processors/question_processor.py:58 | the parts join back into the text |
| Headers.SplitHeaderParts | src/processors/question_processor.py:58 | every odd-indexed part is a header text |
| Headers.SplitTextParts | src/processors/question_processor.py:58 | the preamble and every question body are header-free |
| Headers.SplitWithoutHeader | src/processors/question_processor.py:58 | a text without a header splits into itself alone |
| Headers.CaseSensitiveMatchIsInsensitiveMatch | src/tools.py:28 | the case-sensitive pattern matches only where the case-insensitive one does, with the same length |
| Headers.CaseSensitiveHeaderHasMarker | src/tools.py:28 | a header found by the case-sensitive pattern contains the exact literal "QUESTÃO" |
| TextExtractor.NormalizePageRange | src/extractors/text_extractor.py:31-42 | `0 <= start <= end <= total`; an empty range is `(0, 0)`; a page is in the range exactly when it is requested and in the document |
| TextExtractor.NormalizePageRangeDefaults | src/extractors/text_extractor.py:31-36 | an absent or negative start becomes 0, and an absent or too large end becomes `total` |
| TextExtractor.PageBlocks | src/extractors/text_extractor.py:79-82 | the `text +=` accumulation over pages `start` to `end − 1`; its block structure is stated by `PageBlocksAreBlocks` |
| TextExtractor.ExtractText | src/extractors/text_extractor.py:60-84 | a missing file raises FileNotFoundError before the suffix check; a non-".pdf" suffix (any case) raises ValueError; otherwise the result is the page blocks of the normalised range, "" when it is empty |
| TextExtractor.ReadText | src/extractors/text_extractor.py:60-84 | what `extract_text` returns or raises, for the functions that read a file; `ExtractText` is proved equal to it |
| TextExtractor.PageBlocksAreBlocks | src/extractors/text_extractor.py:79-82 | the text is exactly `end − start` blocks, the i-th with marker `start + i + 1` and that page's text |
| TextExtractor.PageMarkersDistinct | src/extractors/text_extractor.py:82 | different pages carry different markers |
| TextProcessor.LineEnd | src/processors/text_processor.py:40 | the line ends at the first line break at or after `i` |
| TextProcessor.SplitLines | src/processors/text_processor.py:40 | `splitlines()` yields lines without line breaks |
| TextProcessor.StripNonBlank | src/processors/text_processor.py:40 | the comprehension keeps at most as many lines as it gets |
| TextProcessor.NormalizeLines | src/processors/text_processor.py:40-41 | the strip-and-join step of `clean_text`; its lines are stated by `NormalizeLinesShape`, and `NormalizeLinesIdempotent` shows it idempotent |
| TextProcessor.CleanRepetitivePatterns | src/processors/text_processor.py:26 | the result is stripped, and a stripped text the collapse leaves alone is returned unchanged |
| TextProcessor.CleanText | src/processors/text_processor.py:28-41 | repeated-pattern cleanup, then line normalisation; `CleanTextLines` states its lines |
| TextProcessor.CleanTextLines | src/processors/text_processor.py:37-41 | every line of the result of `clean_text` is non-empty, stripped and a single line |
| TextProcessor.StripKeepsNoLineBreak | src/processors/text_processor.py:40 | stripping a line keeps it break-free |
| TextProcessor.StripNonBlankClean | src/processors/text_processor.py:40 | every kept line is non-empty, stripped and break-free |
| TextProcessor.StripNonBlankOfClean | src/processors/text_processor.py:40 | clean lines pass through unchanged |
| TextProcessor.LineEndAt | src/processors/text_processor.py:40 | the line end is the first break after a break-free stretch |
| TextProcessor.SplitLinesOfJoin | src/processors/text_processor.py:41 | splitting a newline-join of clean lines gives the lines back |
| TextProcessor.NormalizeLinesShape | src/processors/text_processor.py:40-41 | the output's lines are exactly the kept input lines, each non-empty and stripped, in order |
| TextProcessor.NormalizeLinesIdempotent | src/processors/text_processor.py:40-41 | line normalisation applied to its own output changes nothing |
| TextProcessor.KeptLineSource | src/processors/text_processor.py:40 | each kept line is the strip of a non-blank input line at or after its own position (no reordering) |
| ImageExtractor.PassesFilters | src/extractors/image_extractor.py:51-96 | a missing count raises first; a zero height raises exactly when the size check does not reject first; otherwise the image passes exactly when it breaks no rule (repetitions, bytes, width, height, aspect, colours, palette with transparency) |
| ImageExtractor.PassesFiltersTotal | src/extractors/image_extractor.py:70-88 | with a positive minimum height a counted image never raises |
| ImageExtractor.AspectBoundsInclusive | src/extractors/image_extractor.py:83-88 | an aspect ratio exactly on either bound passes the aspect check |
| ImageExtractor.ManyColorsSkipColorCheck | src/extractors/image_extractor.py:90-93 | above 10000 colours there is no colour list, so the colour check never rejects |
| ImageExtractor.ExtractAndFilterImage | src/extractors/image_extractor.py:116-152 | a file name `"{question}_img{xref}.{ext}"` exactly when the image decodes and the filter passes; None when the image is rejected or when decoding or the filter raises |
| ImageExtractor.ImageFileNameInjective | src/extractors/image_extractor.py:143-145 | for question names without '_' the file name determines question, xref and extension |
| ImageExtractor.IndexOf | src/extractors/image_extractor.py:143-145 | the first position of a character lies within the string |
| ImageExtractor.IndexOfAfterPrefix | src/extractors/image_extractor.py:143-145 | the first `c` after a `c`-free prefix is right after it |
| ImageExtractor.SplitAtFirst | src/extractors/image_extractor.py:143-145 | strings cut at their first `c` agree on both sides |
| ImageExtractor.TallyCounts | src/extractors/image_extractor.py:41-49 | the tally's keys are exactly the xrefs seen, each mapped to its number of occurrences |
| ImageExtractor.CountImageOccurrences | src/extractors/image_extractor.py:32-49 | `count_image_occurrences` maps exactly the xrefs of all pages' image lists to their number of entries |
| ExamExtractor.SpansHeadersCanonical | src/extractors/exam_extractor.py:85-92 | the spans of a line yield only canonical names |
| ExamExtractor.LinesHeadersCanonical | src/extractors/exam_extractor.py:84-92 | the lines of a block yield only canonical names |
| ExamExtractor.PageHeadersCanonical | src/extractors/exam_extractor.py:82-92 | every recorded header of a page has the canonical name "QUESTÃO NN" |
| ExamExtractor.InsertByY | src/extractors/exam_extractor.py:96 | inserting a header adds exactly that header to the multiset; `InsertByYSorted` and `InsertByYStable` state where it goes |
| ExamExtractor.InsertByYSorted | src/extractors/exam_extractor.py:96 | insertion into a sorted list keeps it sorted by y |
| ExamExtractor.SortByY | src/extractors/exam_extractor.py:96 | `questions.sort(key=y)` is sorted by y and a permutation, keeping repeated names |
| ExamExtractor.AtHeightSnoc | src/extractors/exam_extractor.py:96 | the headers at a height of a list extended by one header |
| ExamExtractor.InsertByYStable | src/extractors/exam_extractor.py:96 | insertion places the new header after the others at its height |
| ExamExtractor.InsertByYStableStep | src/extractors/exam_extractor.py:96 | stability is kept when the inserted header moves in front of a higher one |
| ExamExtractor.SortByYStable | src/extractors/exam_extractor.py:96 | the sort is stable: headers at equal height keep their document order |
| ExamExtractor.FirstBandFrom | src/extractors/exam_extractor.py:134-142 | the index found is the first whose band `[y_i, y_{i+1})` holds y; none only when no band does |
| ExamExtractor.FindQuestion | src/extractors/exam_extractor.py:133-142 | the `enumerate` loop with `break` returns the question of the first band holding the image's y |
| ExamExtractor.FirstBandIs | src/extractors/exam_extractor.py:134-142 | the first band holding y is the one the search returns |
| ExamExtractor.FirstBandNone | src/extractors/exam_extractor.py:134-145 | with no band holding y the search returns none |
| ExamExtractor.AboveFirstHeaderUnassigned | src/extractors/exam_extractor.py:140-145 | on a sorted page an image above the first header belongs to no question |
| ExamExtractor.BelowFirstHeaderAssigned | src/extractors/exam_extractor.py:134-142 | on a sorted page an image at or below the first header always finds a band (the last is unbounded) |
| ExamExtractor.BandUnique | src/extractors/exam_extractor.py:134-142 | on a sorted page the bands are disjoint |
| ExamExtractor.AddName | src/extractors/exam_extractor.py:93-94 | a new name is appended to the keys with an empty list; existing entries and key order are untouched; well-formedness is kept |
| ExamExtractor.RegisterNames | src/extractors/exam_extractor.py:93-94 | registering names keeps the map well formed |
| ExamExtractor.RegisterNamesKeeps | src/extractors/exam_extractor.py:93-94 | existing entries are never dropped or overwritten, and existing keys keep their order |
| ExamExtractor.RegisterNamesAdds | src/extractors/exam_extractor.py:93-94 | every header's name gets an entry, and each new entry is an empty list named after a header |
| ExamExtractor.SortedHeadersRegistered | src/extractors/exam_extractor.py:92-96 | every header of the sorted list has an entry |
| ExamExtractor.AppendUnique | src/extractors/exam_extractor.py:151-155 | a file is appended only when absent, no other list changes, and lists stay duplicate-free |
| ExamExtractor.QuestionMap.constructor | src/extractors/exam_extractor.py:114 | the map starts empty |
| ExamExtractor.QuestionMap.AddIfAbsent | src/extractors/exam_extractor.py:93-94 | the live dictionary becomes `AddName` of its old contents |
| ExamExtractor.QuestionMap.Append | src/extractors/exam_extractor.py:155 | the live dictionary becomes `AppendUnique` of its old contents |
| ExamExtractor.SpansHeadersStep | src/extractors/exam_extractor.py:85-92 | the headers of one more span extend the list by that span's header |
| ExamExtractor.LinesHeadersStep | src/extractors/exam_extractor.py:84-92 | the headers of one more line extend the list by that line's headers |
| ExamExtractor.PageHeadersStep | src/extractors/exam_extractor.py:82-92 | the headers of one more block extend the list by that block's headers |
| ExamExtractor.RegisterNamesStep | src/extractors/exam_extractor.py:93-94 | registering one more header is one more `AddName` |
| ExamExtractor.RecordSpan | src/extractors/exam_extractor.py:86-94 | one span records `(name, block top)` and registers the name |
| ExamExtractor.ScanSpans | src/extractors/exam_extractor.py:85-94 | the span loop records the line's headers and registers their names |
| ExamExtractor.ScanLines | src/extractors/exam_extractor.py:84-94 | the line loop records the block's headers and registers their names |
| ExamExtractor.ScanBlock | src/extractors/exam_extractor.py:82-94 | a block without "lines" contributes nothing; otherwise its headers are recorded |
| ExamExtractor.MapQuestions | src/extractors/exam_extractor.py:57-98 | `map_questions` returns every header occurrence sorted by y and leaves the map as the old one with the page's names registered |
| ExamExtractor.AssignImage | src/extractors/exam_extractor.py:124-155 | one image never adds or removes keys and keeps the map well formed |
| ExamExtractor.AssignImages | src/extractors/exam_extractor.py:124-155 | the images of a page keep the keys and well-formedness |
| ExamExtractor.PageStep | src/extractors/exam_extractor.py:118-155 | one page keeps the map well formed |
| ExamExtractor.MapPages | src/extractors/exam_extractor.py:118-158 | the final map is well formed: distinct keys, and no list holds a file twice |
| ExamExtractor.AssignPageImages | src/extractors/exam_extractor.py:124-155 | the image loop of a page updates the live map as `AssignImages` says |
| ExamExtractor.MapImagesToQuestions | src/extractors/exam_extractor.py:100-158 | `map_images_to_questions` returns a fresh, well-formed map equal to `ImageMap` of the document |
| ExamExtractor.ImageMap | src/extractors/exam_extractor.py:100-158 | the map of a whole document has distinct keys, each a canonical question name, and duplicate-free lists of files named after their key |
| ExamExtractor.HeaderlessPageIsNoOp | src/extractors/exam_extractor.py:119-121 | a page without headers changes nothing and places no image |
| ExamExtractor.UnplacedImageSkipped | src/extractors/exam_extractor.py:126-129 | an image without a placement rectangle is skipped |
| ExamExtractor.AssignImageTarget | src/extractors/exam_extractor.py:126-155 | an image changes at most the list of the question whose band holds its first rectangle's top, by appending the filter's new file name |
| ExamExtractor.ImageMapKeysCanonical | src/extractors/exam_extractor.py:86-94 | every key of the image map is a canonical question name |
| ExamExtractor.AssignImageNamed | src/extractors/exam_extractor.py:147-155 | one image keeps every file filed under the question it is named after |
| ExamExtractor.AssignImagesNamed | src/extractors/exam_extractor.py:147-155 | the images of a page keep files filed under their own question |
| ExamExtractor.ImageMapFilesNamedAfterKeys | src/extractors/exam_extractor.py:118-158 | every file in a question's list is named `"{question}_img…"` after that question |
| ExamExtractor.ExtractExamText | src/extractors/exam_extractor.py:160-190 | the exam file's FileNotFoundError or ValueError first; without an answer-key file the exam's requested pages; otherwise the key's ValueError, or the exam pages, the separator and all the key's pages in that order |
| LegacyImageExtraction.LegacyPassesFilters | src/image_extraction.py:30-63 | the older filter decides (and raises) exactly as the current one configured with its thresholds and the fixed aspect bounds |
| LegacyImageExtraction.DefaultLimitsAreDefaultConfig | src/image_extraction.py:35-39 | the keyword defaults 300, 300, 10240, 1, 50 with bounds 0.25–4.0 are the defaults of the filter configuration |
| LegacyImageExtraction.LegacyFilterDecides | src/image_extraction.py:42-63 | with its defaults the older filter never raises for a counted image and keeps it exactly when it breaks no default rule |
| LegacyImageExtraction.NoHeadersPlaceNothing | src/image_extraction.py:122-135 | with no headers on a page no image is assigned |
| LegacyImageExtraction.PageStepWithoutSkip | src/image_extraction.py:92-158 | running the image loop on a headerless page gives the same map as the current mapper's skip |
| LegacyImageExtraction.LegacyImageFile | src/image_extraction.py:137-158 | the `try` block names the file exactly as the current extractor with default configuration does |
| LegacyImageExtraction.LegacyPageImages | src/image_extraction.py:112-158 | the older image loop updates the map exactly as the current one |
| LegacyImageExtraction.LegacyMapImagesToQuestions | src/image_extraction.py:77-161 | the older mapper computes the same map as the current one with the default filter |
| QuestionId.FoldChar | src/utils/build_question_id.py:15-16 | NFD plus ASCII-ignore keeps ASCII, keeps a Latin-1 letter's base letter, and drops the rest |
| QuestionId.AsciiFold | src/utils/build_question_id.py:15-16 | folding yields only ASCII and never lengthens |
| QuestionId.AsciiFoldOfAscii | src/utils/build_question_id.py:15-16 | ASCII text folds to itself |
| QuestionId.HyphensToUnderscores | src/utils/build_question_id.py:22 | every hyphen becomes '_' and nothing else changes |
| QuestionId.Keep | src/utils/build_question_id.py:25 | removing the complement of a class leaves only class characters |
| QuestionId.KeepAll | src/utils/build_question_id.py:25 | text already in the class is unchanged |
| QuestionId.KeepConcat | src/utils/build_question_id.py:25 | keeping a class distributes over concatenation |
| QuestionId.HasDigitIff | src/utils/build_question_id.py:103 | a text has a digit exactly when keeping its digits leaves something |
| QuestionId.AsciiFoldDigits | src/utils/build_question_id.py:90-91 | folding keeps exactly the ASCII digits, in order |
| QuestionId.LowerDigits | src/utils/build_question_id.py:92 | lower-casing keeps the digits |
| QuestionId.KeepDigitsOfSpaces | src/utils/build_question_id.py:92 | whitespace holds no digit |
| QuestionId.StripDigits | src/utils/build_question_id.py:92 | stripping keeps the digits |
| QuestionId.CollapseRunsHead | src/utils/build_question_id.py:28-31 | collapsing runs keeps the first character, or starts with the replacement for a run |
| QuestionId.CollapseRunsClass | src/utils/build_question_id.py:28-31 | collapsing runs stays within a class that holds the replacement and the non-run characters |
| QuestionId.CollapseRunsNoRepeat | src/utils/build_question_id.py:31 | after `re.sub(r"_+", "_")` no two neighbours are underscores |
| QuestionId.CollapseRunsOfCollapsed | src/utils/build_question_id.py:28-31 | collapsed text is unchanged by collapsing again |
| QuestionId.TidyIsIdentifier | src/utils/build_question_id.py:31-33 | collapsing and trimming underscores of `[a-z0-9_]` text gives an identifier |
| QuestionId.TidyOfIdentifier | src/utils/build_question_id.py:31-33 | an identifier is left as it is |
| QuestionId.NormalizeText | src/utils/build_question_id.py:6-33 | empty input gives ""; the output uses only `[a-z0-9_]`, has no `__` and no '_' at either end |
| QuestionId.IdCharFacts | src/utils/build_question_id.py:15-28 | an identifier character survives every step before the underscore clean-up |
| QuestionId.PrepareIdentifier | src/utils/build_question_id.py:15-28 | the folding, lower-casing, hyphen, filter and whitespace steps leave identifier text unchanged |
| QuestionId.NormalizeIdentifier | src/utils/build_question_id.py:6-33 | identifiers are the fixed points of `_normalize_text` |
| QuestionId.NormalizeIdempotent | src/utils/build_question_id.py:6-33 | normalising twice is normalising once |
| QuestionId.DigitRunExact | src/utils/build_question_id.py:48-51 | digits ending at a non-digit are exactly the greedy run |
| QuestionId.OrdinalAt | src/utils/build_question_id.py:48-49 | a match of `(\d+)o?_dia` / `(\d+)a?_fase` is well placed in the text |
| QuestionId.LiteralWordAt | src/utils/build_question_id.py:50-52 | a match of `tipo_(\w+)` / `caderno_(\w+)` is well placed |
| QuestionId.NumberedBookletAt | src/utils/build_question_id.py:51 | a match of `caderno_\d+(\w+)` is well placed |
| QuestionId.RuleAt | src/utils/build_question_id.py:47-53 | every rule's match is well placed |
| QuestionId.RuleInBounds | src/utils/build_question_id.py:47-53 | the rules' matches stay inside the text |
| QuestionId.RuleKeepsIdChars | src/utils/build_question_id.py:47-53 | each replacement stays within `[a-z0-9_]` |
| QuestionId.ApplyRules | src/utils/build_question_id.py:55-56 | the rules applied one after the other in list order; `ApplyRulesKeepsIdChars` states what it keeps |
| QuestionId.ApplyRulesKeepsIdChars | src/utils/build_question_id.py:55-56 | the rewrite loop keeps text within `[a-z0-9_]` |
| QuestionId.CompactVariant | src/utils/build_question_id.py:36-59 | empty input gives ""; the result is an identifier |
| QuestionId.RewriteWhole | src/utils/build_question_id.py:55-56 | a rule whose match covers the text replaces it by prefix plus group |
| QuestionId.OrdinalWhole | src/utils/build_question_id.py:48-49 | digits, optional letter and literal filling the text match as a whole |
| QuestionId.DayRuleRewrites | src/utils/build_question_id.py:48 | `N_dia` and `No_dia` become `dN` |
| QuestionId.PhaseRuleRewrites | src/utils/build_question_id.py:49 | `N_fase` and `Na_fase` become `fN` |
| QuestionId.TypeRuleRewrites | src/utils/build_question_id.py:50 | `tipo_X` becomes `tX` |
| QuestionId.BookletRulesRewrite | src/utils/build_question_id.py:51-52 | `caderno_NX` (X not starting with a digit) and `caderno_X` become `X` |
| QuestionId.NumberedBookletKeepsLastDigit | src/utils/build_question_id.py:51 | `caderno_` followed by two or more digits keeps only the last digit |
| QuestionId.SkipOptional | src/utils/build_question_id.py:97-101 | an optional character moves the position forward by at most one, within the text |
| QuestionId.DigitsFrom | src/utils/build_question_id.py:97-103 | a match ending in `(\d+)` has a digit group, and exists exactly when a digit follows |
| QuestionId.NumberAfterKeyword | src/utils/build_question_id.py:97-99 | a keyword pattern's group is a digit run |
| QuestionId.SkipAll | src/utils/build_question_id.py:97-101 | skipping optional classes stays within the text |
| QuestionId.NumberAt | src/utils/build_question_id.py:95-104 | each label pattern's match carries a digit group |
| QuestionId.ExtractQuestionNumber | src/utils/build_question_id.py:85-87 | the empty-label error is raised exactly for blank labels |
| QuestionId.LabelTextDigits | src/utils/build_question_id.py:90-92 | the patterns see exactly the digits of the raw label |
| QuestionId.FirstNumber | src/utils/build_question_id.py:106-109 | `int(group(1))` of the leftmost match of the first pattern that matches; `FirstNumberNeedsDigit` and `FirstNumberOfDigit` state when it finds one |
| QuestionId.FirstNumberNeedsDigit | src/utils/build_question_id.py:106-109 | a number is found only in a text with a digit |
| QuestionId.FirstNumberOfDigit | src/utils/build_question_id.py:103-109 | with the bare-digits pattern last, a text with a digit always yields a number |
| QuestionId.ExtractSucceedsIffDigit | src/utils/build_question_id.py:85-112 | a label yields a number exactly when it contains a digit; blank or digit-free labels raise ValueError |
| QuestionId.AsciiFoldConcat | src/utils/build_question_id.py:90-91 | folding distributes over concatenation |
| QuestionId.FoldMarker | src/utils/build_question_id.py:90-91 | "QUESTÃO " folds to "QUESTAO " |
| QuestionId.QuestaoMatchesHeader | src/utils/build_question_id.py:97 | `quest[ao]+\s*(?:n[o.]?\s*)?(\d+)` matches "questao NN" whole with the digits as group |
| QuestionId.DigitsAreAscii | src/utils/build_question_id.py:90-91 | digits are ASCII |
| QuestionId.HeaderLabelFold | src/utils/build_question_id.py:90-91 | a header label folds to "QUESTAO <digits>" |
| QuestionId.HeaderLabelLower | src/utils/build_question_id.py:92 | its lower-case form is "questao <digits>" |
| QuestionId.StripLetterToDigit | src/utils/build_question_id.py:92 | a text from a letter to a digit has nothing to strip |
| QuestionId.HeaderLabelText | src/utils/build_question_id.py:85-92 | a header label is not blank and the patterns see "questao <digits>" |
| QuestionId.FirstNumberOfHeader | src/utils/build_question_id.py:106-109 | the first pattern reads the header's digits |
| QuestionId.ExtractFromHeaderLabel | src/utils/build_question_id.py:62-112 | "QUESTÃO <digits>" yields the value of its digits |
| QuestionId.ExtractFromCanonicalName | src/utils/build_question_id.py:62-112 | the number read back from a canonical header name is the number it was built from |
| QuestionId.StripLeadingYear | src/utils/build_question_id.py:142 | removing `^{year}_?` leaves a suffix, and a variant not starting with the year is unchanged |
| QuestionId.StripLeadingYearKeepsIdentifier | src/utils/build_question_id.py:142 | what is left of an identifier is an identifier |
| QuestionId.StripLeadingYearOfPrefixed | src/utils/build_question_id.py:142 | a year prefix, with or without its underscore, is removed |
| QuestionId.ChosenBase | src/utils/build_question_id.py:136 | a non-empty acronym is used, otherwise the base name |
| QuestionId.VariantPart | src/utils/build_question_id.py:140-142 | the variant field is an identifier |
| QuestionId.ShortHash | src/utils/build_question_id.py:155-156 | the short hash is 8 lower-case hex digits |
| QuestionId.ReadableId | src/utils/build_question_id.py:146-153 | the `"_".join` of the components; `ReadableIdLayout` states its layout |
| QuestionId.BuildQuestionId | src/utils/build_question_id.py:115-158 | the readable id, an underscore and 8 hex digits of the hash; `QuestionIdLayout`, `QuestionIdHashSuffix`, `QuestionIdsDistinguishNumbers` and `QuestionIdIsSlug` state its properties |
| QuestionId.JoinFields | src/utils/build_question_id.py:146-153 | joining the components with `_` gives `<base>_<year>_[<variant>_]` followed by the last field |
| QuestionId.ReadableIdLayout | src/utils/build_question_id.py:144-153 | the components join as `<base>_<year>[_<variant>]_q<NN>` |
| QuestionId.QuestionIdLayout | src/utils/build_question_id.py:136-158 | the id is `<base>_<year>[_<variant>]_q<NN>_<hash8>`, variant omitted when empty |
| QuestionId.QuestionIdHashSuffix | src/utils/build_question_id.py:155-158 | the id ends with '_' and the first 8 hex digits of the hash of `base_year_variant_number` |
| QuestionId.Format02NoUnderscore | src/utils/build_question_id.py:144 | the number field holds no underscore |
| QuestionId.SameFirstField | src/utils/build_question_id.py:153 | texts starting with underscore-free fields split at the same place |
| QuestionId.QuestionIdsDistinguishNumbers | src/utils/build_question_id.py:144-158 | within one exam different question numbers give different ids |
| QuestionId.AcronymTakesPrecedence | src/utils/build_question_id.py:136 | with a non-empty acronym the full exam name plays no part |
| QuestionId.IdHeadIsSlug | src/utils/build_question_id.py:146-153 | with a non-negative year the fields before the number are `[a-z0-9_]` |
| QuestionId.QuestionIdIsSlug | src/utils/build_question_id.py:115-158 | for a non-negative year and number the whole id is `[a-z0-9_]` |
| Dispatch.OrDefault | src/processors/question_processor.py:37 | `x or default`: a non-zero value is kept, None and 0 give the default |
| Dispatch.Concurrency | src/processors/question_processor.py:37-40 | an explicit non-zero cap is kept; otherwise the cap is the smaller of the configured maximum and the effective rate |
| Dispatch.Min | src/processors/question_processor.py:38-40 | `min` is a lower bound equal to one argument |
| Dispatch.DefaultConcurrency | src/config.py:57-58 | with the defaults the cap is 10 |
| Dispatch.Pow2 | src/processors/question_processor.py:151 | `2 ** k` is positive |
| Dispatch.Backoff | src/processors/question_processor.py:150-157 | the k-th wait is `Wait(base, k)` = `base·2^k` (after attempt k+1), one per failed attempt before the last |
| Dispatch.WaitDoubles | src/processors/question_processor.py:151 | each wait is twice the one before it |
| Dispatch.FirstSuccess | src/processors/question_processor.py:112-140 | the attempt found lies in `1..max_retries` and succeeds |
| Dispatch.FirstSuccessIsFirst | src/processors/question_processor.py:112-166 | every attempt before the first success failed, and all failed when none succeeds |
| Dispatch.RetryWithBackoff | src/processors/question_processor.py:112-167 | the loop returns the first successful value, calls the model up to that attempt (all `max_retries` when none succeeds), and sleeps once between consecutive attempts |
| Dispatch.RetryOutcome | src/processors/question_processor.py:112-167 | at most `max_retries` calls; a value exactly when some attempt succeeds, and it is the last call's; all earlier calls failed |
| Dispatch.RetryExhausted | src/processors/question_processor.py:158-167 | when every attempt fails, all are made and the result is None |
| Dispatch.BackoffTotal | src/processors/question_processor.py:150-157 | the first n waits add up to `base·2^n − base`, i.e. `base·(2^n − 1)` |
| QuestionProcessor.NewlineRunInBounds | src/processors/question_processor.py:65 | `\n{3,}` matches stay inside the text |
| QuestionProcessor.NewlineRunAt | src/processors/question_processor.py:65 | `\n{3,}` matches exactly where three newlines start |
| QuestionProcessor.NoTripleIsNoMatch | src/processors/question_processor.py:65 | a text has no triple newline exactly when the pattern matches nowhere |
| QuestionProcessor.NoTripleJoin | src/processors/question_processor.py:65 | two pieces joined by a blank line gain no triple newline |
| QuestionProcessor.BeforeFirstRun | src/processors/question_processor.py:65 | the text before the leftmost run has no triple newline and does not end with a newline |
| QuestionProcessor.CollapseNewlines | src/processors/question_processor.py:65 | `re.sub(r"\n{3,}", "\n\n", …)`; `CollapseNewlinesFacts` and `CollapseNewlinesIdempotent` state its effect |
| QuestionProcessor.CollapseNewlinesFacts | src/processors/question_processor.py:65 | after the substitution no three newlines follow each other, and the first non-newline character stays first |
| QuestionProcessor.CollapseNewlinesIdempotent | src/processors/question_processor.py:65 | collapsing twice is collapsing once |
| QuestionProcessor.ChunksOf | src/processors/question_processor.py:61-66 | one chunk per header, each header + "\n" + cleaned following text |
| QuestionProcessor.SplitIntoQuestions | src/processors/question_processor.py:49-67 | the loop collects exactly the chunks of the split |
| QuestionProcessor.ChunkLayout | src/processors/question_processor.py:58-66 | chunk k starts with the k-th header match and a newline, its body has no triple newline, and the preamble is in no chunk |
| QuestionProcessor.ChunkCount | src/processors/question_processor.py:58-67 | one chunk per header match, and none for a text without a header |
| QuestionProcessor.SplitAnswerKey | src/processors/question_processor.py:77-82 | with the separator present, exam + separator + key rebuilds the text and the exam part has no separator; otherwise `(text, "No answer key found.")` |
| QuestionProcessor.SeparatorSplitsBack | src/processors/question_processor.py:77-81 | for an exam text without the marker, splitting `exam + "\n\n--- Answer Key ---\n\n" + key` gives `(exam + "\n\n", "\n\n" + key)` |
| Pipeline.ExamTextSplitsBack | src/pipeline.py:63-77 | when `extract_exam_text` succeeds with its default separator and the exam pages hold no marker, `split_answer_key` gives back the exam pages and the key pages, or the exam pages and the placeholder when there is no key file |
| QuestionProcessor.FirstOccurrenceClean | src/processors/question_processor.py:77 | the text before the first separator holds none |
| QuestionProcessor.Identify | src/processors/question_processor.py:123-140 | an answer counts as a success exactly when its label yields a number |
| QuestionProcessor.ChunkResultIsAttempt | src/processors/question_processor.py:112-167 | a chunk's result (`ChunkResult`, what `process_question_chunk` returns) is the value of a successful identified attempt numbered 1 to `max_retries` |
| QuestionProcessor.ProcessQuestionChunk | src/processors/question_processor.py:84-167 | a chunk without "QUESTÃO" gives None with no call; otherwise the retry policy over identified answers, with its attempts and waits |
| QuestionProcessor.ProcessedQuestionIdentified | src/processors/question_processor.py:127-140 | a returned question is the last attempt's answer with `question_id` built from its own label's number |
| QuestionProcessor.UnnumberedAnswersFail | src/processors/question_processor.py:127-166 | answers without a digit in the label all fail, giving None after `max_retries` calls |
| QuestionProcessor.CaseSensitiveChunksPassGuard | src/tools.py:41-61 | every chunk of the case-sensitive split contains "QUESTÃO" |
| QuestionProcessor.ChunkWithoutUpperMarkerDropped | src/processors/question_processor.py:102-103 | a chunk without an upper-case 'Ã' (e.g. a header found as "Questão 1") is dropped with no model call |
| QuestionProcessor.Present | src/processors/question_processor.py:196 | filtering out None never lengthens the list |
| QuestionProcessor.FlattenResults | src/processors/question_processor.py:196-205 | the extend/append loop splices lists and appends single results, in order |
| QuestionProcessor.PresentConcat | src/processors/question_processor.py:196 | filtering distributes over concatenation, so order is kept |
| QuestionProcessor.SpliceConcat | src/processors/question_processor.py:198-205 | flattening distributes over concatenation |
| QuestionProcessor.SpliceMembers | src/processors/question_processor.py:198-205 | an item is in the result exactly when some present result holds it |
| QuestionProcessor.SpliceSingles | src/processors/question_processor.py:198-205 | without list results flattening gives one item per present result, in order |
| QuestionProcessor.StructureQuestions | src/processors/question_processor.py:169-205 | the result is the present chunk results in chunk order |
| QuestionProcessor.WrappedChunk | src/processors/question_processor.py:184-194 | one chunk's gathered object is its `process_question_chunk` result, as one object |
| QuestionProcessor.ChunkResults | src/processors/question_processor.py:184-194 | the first `n` chunks give `n` results |
| QuestionProcessor.ChunkResultsAt | src/processors/question_processor.py:184-194 | result `i` is what `process_question_chunk` gives for chunk `i` |
| QuestionProcessor.GatherChunks | src/processors/question_processor.py:184-194 | the gather loop collects each chunk's result, as one object, in chunk order |
| QuestionProcessor.PresentOfWrapped | src/processors/question_processor.py:196-205 | flattening single results gives the present results back |
| QuestionProcessor.FirstKeyIn | src/processors/question_processor.py:223-226 | a key found is a map key contained in the label |
| QuestionProcessor.FirstKeyInIsFirst | src/processors/question_processor.py:223-226 | no earlier key in insertion order is contained in the label, and with no result none is |
| QuestionProcessor.WithImages | src/processors/question_processor.py:221-226 | only `images` can change, and only for a question with `image` set |
| QuestionProcessor.FirstMatchingKey | src/processors/question_processor.py:223-226 | the inner loop with `break` finds the first matching key |
| QuestionProcessor.AttachImagesToQuestions | src/processors/question_processor.py:207-226 | every question of the list is updated in place as `WithImages` says |
| QuestionProcessor.WithImagesTakesFirstKey | src/processors/question_processor.py:222-226 | a question with `image` set takes the list of the first matching key, and keeps its images otherwise |
| QuestionProcessor.AttachExample | tests/test_attach_images_to_question.py:15-53 | the test's two flagged questions get their own images and the unflagged one is untouched |
| Tools.ChunkByQuestions | src/tools.py:32-50 | chunks of the case-sensitive split, each containing "QUESTÃO" |
| Tools.ToolChunkResult | src/tools.py:53-78 | a result exactly when the chunk contains "QUESTÃO" and the single call succeeds |
| Tools.ToolChunkIsSingleAttempt | src/tools.py:67-78 | the tool makes exactly the processor's first attempt, with no retry |
| Tools.ToolAttached | src/tools.py:81-106 | only `image` and `images` change; `image` ends set exactly when it was set or a source has "http" and the passage is blank; it is never cleared; images come from the first matching key |
| Tools.AttachImages | src/tools.py:267-268 | every question is updated in place as `ToolAttached` says |
| Tools.ToolResults | src/tools.py:243-250 | one result per chunk, in chunk order |
| Tools.AllAttached | src/tools.py:267-268 | every question of the list is attached |
| Tools.StructureQuestionsTool | src/tools.py:228-268 | the key is the text after the first separator (or the fallback), and the output is the flattened, attached results of the case-sensitive chunks, with `d` standing for the map of `ExamExtractor.map_images_to_questions` |
| Tools.ProcessChunks | src/tools.py:243-250 | `gather` keeps one result per chunk in order |
| Tools.AttachToList | src/tools.py:267-268 | the list after the attach loop |
| Tools.ToolKeepsSuccessfulChunks | src/tools.py:60-78 | a chunk's result is present exactly when its call succeeded |
| Tools.SingleAnswersGiveOnePerSuccess | src/tools.py:252-259 | when every answer is one question, the output has one question per successful chunk, in order |
| Tools.PresentAllSingle | src/tools.py:252 | filtering keeps a property of every present result |
| DiagnosticProcessor.SampleEnd | src/processors/diagnostic_processor.py:50-57 | no range for 0 pages; half the pages (rounded down) for more than two; all pages otherwise |
| DiagnosticProcessor.SampleRangeIsExact | src/processors/diagnostic_processor.py:59-64 | the requested range `[0, end)` survives normalisation unchanged |
| DiagnosticProcessor.Sample | src/processors/diagnostic_processor.py:46-64 | a missing file raises; a zero-page document gives "" |
| DiagnosticProcessor.ExtractSample | src/processors/diagnostic_processor.py:46-64 | `extract_sample` computes `Sample` |
| DiagnosticProcessor.SampleIsFirstPages | src/processors/diagnostic_processor.py:54-64 | a sample is the page blocks of the first `end` pages, in order |
| DiagnosticProcessor.AnswerSample | src/processors/diagnostic_processor.py:76-80 | "" unless a path is given and the file exists |
| DiagnosticProcessor.Diagnose | src/processors/diagnostic_processor.py:66-128 | a sample that raises propagates before any call; otherwise the retry policy's result, attempts and waits |
| DiagnosticProcessor.DiagnoseOutcome | src/processors/diagnostic_processor.py:89-128 | with readable samples a diagnostic is returned exactly when some attempt succeeds, after at most `max_retries` calls, and None otherwise |

## Left out

- **PDF, image and file access.** PyMuPDF and PIL calls, file writes and `PromptLoader` are not modelled. Their results are inputs:
  - page texts, blocks, lines and spans with their tops;
  - image placements and decoded-image facts (width, height, byte length, colour count, palette with transparency);
  - whether a file exists and its suffix.
- **The language model, JSON parsing and schema validation.** Each attempt's result is a parameter (`Success(value)` or `Failure`), so a model that raises, returns bad JSON or fails validation is one `Failure`. Prompt building and logging are not modelled.
- **Concurrency.** `asyncio.gather`, `Semaphore` and `AsyncLimiter` become a sequential, order-preserving map, and each `asyncio.sleep` becomes a recorded delay. Rate limiting in time is not modelled.
- **SHA-256** is a parameter (`Hasher`) returning 64 lower-case hex digits.
- **Unicode folding.** NFD decomposition plus ASCII-ignore is modelled for Latin-1 letters only; other non-ASCII characters are dropped.
- **Regex character classes.** `\d` and `\w` are ASCII only, while Python's also cover other Unicode digits and letters.
- TextProcessor.CleanRepetitivePatterns: the back-reference substitution `(?i)(.+?)(?:\s?\1){3,}` is a parameter `collapse`. The property that a substring repeated three or more times collapses to one copy is therefore not proved; only the final strip is.
- **Question record.** `Question` holds only the fields the pipeline touches: question, image, images, passage text, sources and `question_id`. The record in src/models/question.py has no `question_id` field, yet the processor assigns one. `ExamProfile` is not defined in that file either, so the model uses a minimal exam profile (name, acronym, variant, year).
- **`build_question_id` argument conversion.** Its `int()` conversion and the error it raises at src/utils/build_question_id.py:129-133 are left out, because the number always comes from `extract_question_number` as an integer.
- DiagnosticProcessor.ExtractSample: models the call to `extract_text` without the `page_marker=None` argument. That argument is not a parameter of `extract_text`, so as written every non-empty document would raise TypeError. Only the page-bound rule is modelled.
- **Chunk headers.** Chunks keep the header text as the split found it (e.g. "QUESTÃO 1"), not the canonical "QUESTÃO 01".
- **Example that disagrees with the code.** The example comment for the UFU exam (src/utils/build_question_id.py:198-208) disagrees with what the code computes; the model follows the code.
- QuestionProcessor.StructureQuestions: `process_question_chunk` never returns a list, so its splice branch is dead there. List answers are modelled in `Tools`, where the parser can return one.
- Tools.StructureQuestionsTool: as written, src/tools.py:262-264 calls `map_images_to_questions` on a `PDFImageExtractor`, which has no such method (only `ExamExtractor` has one, at src/extractors/exam_extractor.py:100). So once the model calls finish, the tool raises AttributeError and never attaches images, writes the JSON or returns. The model takes the evident intent: the map parameter `d` stands for what `ExamExtractor.map_images_to_questions` returns. The `extract_images_from_pdf` tool (src/tools.py:159-162) makes the same call and is not modelled.
- ImageExtractor.ExtractAndFilterImage: `doc.extract_image` and the `["image"]` lookup sit outside the `try`, so their errors propagate; they are part of the decoded-image input here. A `save_image` failure inside the `try` makes the source return None, while the model, which does not write files, returns the file name.
- Pipeline.ExamTextSplitsBack: leaves aside the `clean_text` step that the pipeline runs between extracting and splitting.
- Tools.ToolAttached: sources are strings, so the `str(source)` conversion of non-string sources is left out.
- **The answer-key text** only feeds the prompt, which is not modelled.
- **Not modelled at all:** HTTP routes, agent graph plumbing, example scripts, `src/pipeline.py` orchestration (apart from the text hand-off in `Pipeline`), configuration loading from the environment, and image saving.
