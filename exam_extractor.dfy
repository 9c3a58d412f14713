/**
 * `ExamExtractor` (src/extractors/exam_extractor.py): finding the question
 * headers of each page with their vertical position, registering them in the
 * question map, and assigning each placed image to the question whose band of
 * the page contains the image's top edge; plus the exam/answer-key text join.
 *
 * A page is what PyMuPDF reports about it: its text blocks (top edge and, when
 * present, lines of span texts) and its image list (xref and the top edges of
 * the placement rectangles). The raw bytes of an image are a function of its
 * xref.
 */
module ExamExtractor {
  import opened Wrappers
  import opened Strings
  import opened Headers
  import opened ImageExtractor
  import opened TextExtractor

  /** A text block of `page.get_text("dict")`: `bbox[1]` and the optional `lines`, each a list of span texts. */
  datatype Block = Block(top: real, lines: Option<seq<seq<string>>>)

  /** An entry of `page.get_images(full=True)` with the `y0` of each rectangle `get_image_rects` returns. */
  datatype PageImage = PageImage(xref: nat, rectTops: seq<real>)

  datatype Page = Page(blocks: seq<Block>, images: seq<PageImage>)

  /** A `(q_name, y)` pair of `map_questions`. */
  datatype Header = Header(name: string, y: real)

  // ---------------------------------------------------------------------------
  // Headers of a page, in document order
  // ---------------------------------------------------------------------------

  /** The header a span contributes, if its text matches. */
  function SpanHeader(text: string, top: real): seq<Header> {
    match SpanHeaderName(text)
    case None => []
    case Some(name) => [Header(name, top)]
  }

  function SpansHeaders(spans: seq<string>, top: real): seq<Header>
    decreases |spans|
  {
    if spans == [] then []
    else SpansHeaders(spans[..|spans| - 1], top) + SpanHeader(spans[|spans| - 1], top)
  }

  function LinesHeaders(lines: seq<seq<string>>, top: real): seq<Header>
    decreases |lines|
  {
    if lines == [] then []
    else LinesHeaders(lines[..|lines| - 1], top) + SpansHeaders(lines[|lines| - 1], top)
  }

  /** Blocks without `"lines"` contribute nothing. */
  function BlockHeaders(block: Block): seq<Header> {
    match block.lines
    case None => []
    case Some(lines) => LinesHeaders(lines, block.top)
  }

  /** Every header occurrence of a page, in block, line and span order. */
  function PageHeaders(blocks: seq<Block>): seq<Header>
    decreases |blocks|
  {
    if blocks == [] then []
    else PageHeaders(blocks[..|blocks| - 1]) + BlockHeaders(blocks[|blocks| - 1])
  }

  /** Every header name is a canonical "QUESTÃO NN" name. */
  ghost predicate CanonicalHeaders(hs: seq<Header>) {
    forall h :: h in hs ==> IsCanonicalName(h.name)
  }

  lemma {:induction false} SpansHeadersCanonical(spans: seq<string>, top: real)
    ensures CanonicalHeaders(SpansHeaders(spans, top))
    decreases |spans|
  {
    if spans != [] {
      SpansHeadersCanonical(spans[..|spans| - 1], top);
    }
  }

  lemma {:induction false} LinesHeadersCanonical(lines: seq<seq<string>>, top: real)
    ensures CanonicalHeaders(LinesHeaders(lines, top))
    decreases |lines|
  {
    if lines != [] {
      LinesHeadersCanonical(lines[..|lines| - 1], top);
      SpansHeadersCanonical(lines[|lines| - 1], top);
    }
  }

  /** "QUESTÃO 1" and "QUESTÃO 01" both yield the canonical two-digit name. */
  lemma {:induction false} PageHeadersCanonical(blocks: seq<Block>)
    ensures CanonicalHeaders(PageHeaders(blocks))
    decreases |blocks|
  {
    if blocks != [] {
      PageHeadersCanonical(blocks[..|blocks| - 1]);
      var last := blocks[|blocks| - 1];
      if last.lines.Some? {
        LinesHeadersCanonical(last.lines.value, last.top);
      }
    }
  }

  // ---------------------------------------------------------------------------
  // Stable sort by y (`questions.sort(key=lambda x: x[1])`)
  // ---------------------------------------------------------------------------

  predicate SortedByY(hs: seq<Header>) {
    forall i, j :: 0 <= i < j < |hs| ==> hs[i].y <= hs[j].y
  }

  /**
   * Places `h` after every element whose y is at most `h.y`: the list gains
   * exactly `h`, and a list sorted by y stays sorted (`InsertByYSorted`).
   */
  function InsertByY(sorted: seq<Header>, h: Header): (r: seq<Header>)
    ensures |r| == |sorted| + 1
    ensures multiset(r) == multiset(sorted) + multiset{h}
    decreases |sorted|
  {
    if sorted == [] || sorted[|sorted| - 1].y <= h.y then sorted + [h]
    else
      assert sorted == sorted[..|sorted| - 1] + [sorted[|sorted| - 1]];
      InsertByY(sorted[..|sorted| - 1], h) + [sorted[|sorted| - 1]]
  }

  lemma {:induction false} InsertByYSorted(sorted: seq<Header>, h: Header)
    requires SortedByY(sorted)
    ensures SortedByY(InsertByY(sorted, h))
    decreases |sorted|
  {
    var r := InsertByY(sorted, h);
    if sorted == [] || sorted[|sorted| - 1].y <= h.y {
      assert r == sorted + [h];
    } else {
      var init, last := sorted[..|sorted| - 1], sorted[|sorted| - 1];
      var shorter := InsertByY(init, h);
      InsertByYSorted(init, h);
      assert r == shorter + [last];
      forall i, j | 0 <= i < j < |r| ensures r[i].y <= r[j].y {
        if j == |r| - 1 {
          var x := shorter[i];
          assert x in multiset(shorter);
          if x != h {
            assert x in multiset(init);
            var k :| 0 <= k < |init| && init[k] == x;
          }
        }
      }
    }
  }

  /** Python's stable `list.sort` keyed on y, as an insertion sort. */
  function SortByY(hs: seq<Header>): (r: seq<Header>)
    ensures SortedByY(r)
    ensures multiset(r) == multiset(hs)
    decreases |hs|
  {
    if hs == [] then []
    else
      assert hs == hs[..|hs| - 1] + [hs[|hs| - 1]];
      InsertByYSorted(SortByY(hs[..|hs| - 1]), hs[|hs| - 1]);
      InsertByY(SortByY(hs[..|hs| - 1]), hs[|hs| - 1])
  }

  /** The headers at height `v`, in order. */
  function AtHeight(hs: seq<Header>, v: real): seq<Header>
    decreases |hs|
  {
    if hs == [] then []
    else AtHeight(hs[..|hs| - 1], v) + (if hs[|hs| - 1].y == v then [hs[|hs| - 1]] else [])
  }

  lemma {:induction false} AtHeightSnoc(hs: seq<Header>, x: Header, v: real)
    ensures AtHeight(hs + [x], v) == AtHeight(hs, v) + (if x.y == v then [x] else [])
  {
    assert (hs + [x])[..|hs|] == hs;
  }

  lemma {:induction false} InsertByYStable(sorted: seq<Header>, h: Header, v: real)
    ensures AtHeight(InsertByY(sorted, h), v) == AtHeight(sorted, v) + (if h.y == v then [h] else [])
    decreases |sorted|
  {
    if sorted == [] || sorted[|sorted| - 1].y <= h.y {
      AtHeightSnoc(sorted, h, v);
    } else {
      var init, last := sorted[..|sorted| - 1], sorted[|sorted| - 1];
      InsertByYStable(init, h, v);
      assert sorted == init + [last];
      InsertByYStableStep(init, last, h, v);
    }
  }

  /** The step of `InsertByYStable` where `h` moves in front of a higher `last`. */
  lemma InsertByYStableStep(init: seq<Header>, last: Header, h: Header, v: real)
    requires h.y < last.y
    requires AtHeight(InsertByY(init, h), v) == AtHeight(init, v) + (if h.y == v then [h] else [])
    ensures AtHeight(InsertByY(init + [last], h), v) == AtHeight(init + [last], v) + (if h.y == v then [h] else [])
  {
    var shorter := InsertByY(init, h);
    assert (init + [last])[..|init|] == init;
    assert InsertByY(init + [last], h) == shorter + [last];
    AtHeightSnoc(shorter, last, v);
    AtHeightSnoc(init, last, v);
    if h.y == v {
      assert last.y != v;
    }
  }

  /** The sort is stable: headers at the same height keep their document order. */
  lemma {:induction false} SortByYStable(hs: seq<Header>, v: real)
    ensures AtHeight(SortByY(hs), v) == AtHeight(hs, v)
    decreases |hs|
  {
    if hs != [] {
      SortByYStable(hs[..|hs| - 1], v);
      InsertByYStable(SortByY(hs[..|hs| - 1]), hs[|hs| - 1], v);
    }
  }

  // ---------------------------------------------------------------------------
  // Interval assignment
  // ---------------------------------------------------------------------------

  /** `y` lies in header `i`'s band `[y_i, y_{i+1})`; the last band is unbounded above. */
  predicate InBand(hs: seq<Header>, i: nat, y: real)
    requires i < |hs|
  {
    hs[i].y <= y && (i + 1 == |hs| || y < hs[i + 1].y)
  }

  function FirstBandFrom(hs: seq<Header>, y: real, i: nat): (r: Option<nat>)
    requires i <= |hs|
    ensures r.Some? ==> i <= r.value < |hs| && InBand(hs, r.value, y)
    ensures r.Some? ==> forall j :: i <= j < r.value ==> !InBand(hs, j, y)
    ensures r.None? ==> forall j :: i <= j < |hs| ==> !InBand(hs, j, y)
    decreases |hs| - i
  {
    if i == |hs| then None
    else if InBand(hs, i, y) then Some(i)
    else FirstBandFrom(hs, y, i + 1)
  }

  /** The index of the first header whose band holds `y`. */
  function BandOf(hs: seq<Header>, y: real): Option<nat> {
    FirstBandFrom(hs, y, 0)
  }

  /** The question an image at `y` belongs to. */
  function QuestionFor(hs: seq<Header>, y: real): Option<string> {
    match BandOf(hs, y)
    case None => None
    case Some(i) => Some(hs[i].name)
  }

  /** The search loop over `enumerate(questions)` with its `break`. */
  method FindQuestion(questions: seq<Header>, imgY: real) returns (current: Option<string>)
    ensures current == QuestionFor(questions, imgY)
  {
    current := None;
    var i := 0;
    while i < |questions|
      invariant 0 <= i <= |questions|
      invariant forall j :: 0 <= j < i ==> !InBand(questions, j, imgY)
    {
      var isLast := !(i + 1 < |questions|);
      if questions[i].y <= imgY && (isLast || imgY < questions[i + 1].y) {
        current := Some(questions[i].name);
        assert FirstBandFrom(questions, imgY, 0) == Some(i) by {
          FirstBandIs(questions, imgY, 0, i);
        }
        return;
      }
      i := i + 1;
    }
    assert FirstBandFrom(questions, imgY, 0) == None by {
      FirstBandNone(questions, imgY, 0);
    }
  }

  lemma {:induction false} FirstBandIs(hs: seq<Header>, y: real, from: nat, i: nat)
    requires from <= i < |hs| && InBand(hs, i, y)
    requires forall j :: from <= j < i ==> !InBand(hs, j, y)
    ensures FirstBandFrom(hs, y, from) == Some(i)
    decreases i - from
  {
    if from < i {
      FirstBandIs(hs, y, from + 1, i);
    }
  }

  lemma {:induction false} FirstBandNone(hs: seq<Header>, y: real, from: nat)
    requires from <= |hs|
    requires forall j :: from <= j < |hs| ==> !InBand(hs, j, y)
    ensures FirstBandFrom(hs, y, from) == None
    decreases |hs| - from
  {
    if from < |hs| {
      FirstBandNone(hs, y, from + 1);
    }
  }

  /** On a sorted page an image above the first header belongs to no question. */
  lemma AboveFirstHeaderUnassigned(hs: seq<Header>, y: real)
    requires SortedByY(hs) && hs != [] && y < hs[0].y
    ensures BandOf(hs, y) == None
  {
  }

  /** On a sorted page an image at or below the first header always finds a band. */
  lemma {:induction false} BelowFirstHeaderAssigned(hs: seq<Header>, y: real)
    requires SortedByY(hs) && hs != [] && hs[0].y <= y
    ensures BandOf(hs, y).Some?
  {
    // The last header whose top is at most y owns the band.
    var i := 0;
    while i + 1 < |hs| && hs[i + 1].y <= y
      invariant 0 <= i < |hs| && hs[i].y <= y
    {
      i := i + 1;
    }
    assert InBand(hs, i, y);
  }

  /** On a sorted page the bands are disjoint: the first band holding y is the only one. */
  lemma BandUnique(hs: seq<Header>, y: real, i: nat, j: nat)
    requires SortedByY(hs) && i < j < |hs|
    requires InBand(hs, i, y)
    ensures !InBand(hs, j, y)
  {
    assert hs[i + 1].y <= hs[j].y;
  }

  // ---------------------------------------------------------------------------
  // The question map
  // ---------------------------------------------------------------------------

  predicate Distinct<T(==)>(s: seq<T>) {
    forall i, j :: 0 <= i < j < |s| ==> s[i] != s[j]
  }

  /** `question_map` as an insertion-ordered dictionary. */
  datatype Dict = Dict(keys: seq<string>, lists: map<string, seq<string>>)

  const EmptyDict := Dict([], map[])

  /** Keys distinct and in the map, and no list holds a file name twice. */
  ghost predicate WellFormed(d: Dict) {
    && Distinct(d.keys)
    && (forall k :: k in d.lists <==> k in d.keys)
    && (forall k :: k in d.lists ==> Distinct(d.lists[k]))
  }

  /** `if q_name not in question_map: question_map[q_name] = []`. */
  function AddName(d: Dict, name: string): (r: Dict)
    ensures WellFormed(d) ==> WellFormed(r)
    ensures name in r.lists
    ensures r.keys == d.keys + (if name in d.lists then [] else [name])
    ensures forall k :: k in d.lists ==> k in r.lists && r.lists[k] == d.lists[k]
    ensures forall k :: k in r.lists ==> k in d.lists || k == name
    ensures name !in d.lists ==> r.lists[name] == []
  {
    if name in d.lists then d
    else Dict(d.keys + [name], d.lists[name := []])
  }

  /** Registering the names of some headers in order. */
  function RegisterNames(d: Dict, hs: seq<Header>): (r: Dict)
    ensures WellFormed(d) ==> WellFormed(r)
    decreases |hs|
  {
    if hs == [] then d
    else AddName(RegisterNames(d, hs[..|hs| - 1]), hs[|hs| - 1].name)
  }

  /**
   * Registering never drops or changes an existing entry, and existing keys
   * keep their order.
   */
  lemma {:induction false} RegisterNamesKeeps(d: Dict, hs: seq<Header>)
    ensures forall k :: k in d.lists ==> k in RegisterNames(d, hs).lists && RegisterNames(d, hs).lists[k] == d.lists[k]
    ensures |d.keys| <= |RegisterNames(d, hs).keys| && RegisterNames(d, hs).keys[..|d.keys|] == d.keys
    decreases |hs|
  {
    if hs != [] {
      var init := hs[..|hs| - 1];
      RegisterNamesKeeps(d, init);
      var prev := RegisterNames(d, init);
      var r := AddName(prev, hs[|hs| - 1].name);
      assert r.keys[..|prev.keys|] == prev.keys;
      assert r.keys[..|d.keys|] == prev.keys[..|d.keys|];
    }
  }

  /**
   * After registering, every header's name has an entry, and each new entry
   * is an empty list named after one of the headers.
   */
  lemma {:induction false} RegisterNamesAdds(d: Dict, hs: seq<Header>)
    ensures forall h :: h in hs ==> h.name in RegisterNames(d, hs).lists
    ensures forall k :: k in RegisterNames(d, hs).lists && k !in d.lists ==>
      RegisterNames(d, hs).lists[k] == [] && exists h :: h in hs && h.name == k
    decreases |hs|
  {
    if hs != [] {
      var init := hs[..|hs| - 1];
      RegisterNamesAdds(d, init);
      assert hs == init + [hs[|hs| - 1]];
    }
  }

  /** The headers of a page, sorted, all have entries once their names are registered. */
  lemma SortedHeadersRegistered(d: Dict, found: seq<Header>)
    ensures Registered(RegisterNames(d, found), SortByY(found))
  {
    RegisterNamesAdds(d, found);
    forall h | h in SortByY(found) ensures h.name in RegisterNames(d, found).lists {
      assert h in multiset(found);
    }
  }

  /** Appending `file` to `name`'s list unless it is there already. */
  function AppendUnique(d: Dict, name: string, file: string): (r: Dict)
    requires name in d.lists
    ensures WellFormed(d) ==> WellFormed(r)
    ensures r.keys == d.keys && r.lists.Keys == d.lists.Keys
    ensures r.lists[name] == d.lists[name] + (if file in d.lists[name] then [] else [file])
    ensures forall k :: k in d.lists && k != name ==> r.lists[k] == d.lists[k]
  {
    if file in d.lists[name] then d
    else d.(lists := d.lists[name := d.lists[name] + [file]])
  }

  /** The dictionary `question_map`, updated in place. */
  class QuestionMap {
    var keys: seq<string>
    var lists: map<string, seq<string>>

    function Contents(): Dict
      reads this
    {
      Dict(keys, lists)
    }

    ghost predicate Valid()
      reads this
    {
      WellFormed(Contents())
    }

    constructor ()
      ensures Valid() && Contents() == EmptyDict
    {
      keys := [];
      lists := map[];
    }

    /** `if q_name not in question_map: question_map[q_name] = []`. */
    method AddIfAbsent(name: string)
      requires Valid()
      modifies this
      ensures Valid() && Contents() == AddName(old(Contents()), name)
    {
      if name !in lists {
        keys := keys + [name];
        lists := lists[name := []];
      }
    }

    /** `question_map[name].append(file)`, for a file not yet in the list. */
    method Append(name: string, file: string)
      requires Valid() && name in lists && file !in lists[name]
      modifies this
      ensures Valid() && Contents() == AppendUnique(old(Contents()), name, file)
    {
      lists := lists[name := lists[name] + [file]];
    }
  }

  lemma SpansHeadersStep(prefix: seq<Header>, spans: seq<string>, s: nat, top: real, found: Option<string>)
    requires s < |spans| && found == SpanHeaderName(spans[s])
    ensures prefix + SpansHeaders(spans[..s + 1], top)
            == prefix + SpansHeaders(spans[..s], top) + (if found.Some? then [Header(found.value, top)] else [])
  {
    assert spans[..s + 1][..s] == spans[..s];
  }

  lemma LinesHeadersStep(prefix: seq<Header>, lines: seq<seq<string>>, l: nat, top: real)
    requires l < |lines|
    ensures prefix + LinesHeaders(lines[..l + 1], top) == prefix + LinesHeaders(lines[..l], top) + SpansHeaders(lines[l], top)
  {
    assert lines[..l + 1][..l] == lines[..l];
  }

  lemma PageHeadersStep(blocks: seq<Block>, b: nat)
    requires b < |blocks|
    ensures PageHeaders(blocks[..b + 1]) == PageHeaders(blocks[..b]) + BlockHeaders(blocks[b])
  {
    assert blocks[..b + 1][..b] == blocks[..b];
  }

  lemma RegisterNamesStep(d: Dict, hs: seq<Header>, h: Header)
    ensures RegisterNames(d, hs + [h]) == AddName(RegisterNames(d, hs), h.name)
  {
    assert (hs + [h])[..|hs|] == hs;
  }

  /** One span's contribution: record `(name, top)` and register the name if it is new. */
  method RecordSpan(questionMap: QuestionMap, name: Option<string>, top: real, ghost start: Dict, questions: seq<Header>)
    returns (found: seq<Header>)
    requires questionMap.Valid() && questionMap.Contents() == RegisterNames(start, questions)
    modifies questionMap
    ensures questionMap.Valid()
    ensures found == questions + (if name.Some? then [Header(name.value, top)] else [])
    ensures questionMap.Contents() == RegisterNames(start, found)
  {
    found := questions;
    if name.Some? {
      var header := Header(name.value, top);
      RegisterNamesStep(start, found, header);
      found := found + [header];
      questionMap.AddIfAbsent(name.value);
    }
  }

  /** The innermost loop of `map_questions`: the spans of one line. */
  method ScanSpans(questionMap: QuestionMap, spans: seq<string>, top: real, ghost start: Dict, questions: seq<Header>)
    returns (found: seq<Header>)
    requires questionMap.Valid() && questionMap.Contents() == RegisterNames(start, questions)
    modifies questionMap
    ensures questionMap.Valid()
    ensures found == questions + SpansHeaders(spans, top)
    ensures questionMap.Contents() == RegisterNames(start, found)
  {
    found := questions;
    var s := 0;
    while s < |spans|
      invariant 0 <= s <= |spans|
      invariant questionMap.Valid()
      invariant found == questions + SpansHeaders(spans[..s], top)
      invariant questionMap.Contents() == RegisterNames(start, found)
    {
      var name := SpanHeaderName(spans[s]);
      SpansHeadersStep(questions, spans, s, top, name);
      found := RecordSpan(questionMap, name, top, start, found);
      s := s + 1;
    }
    assert spans[..s] == spans;
  }

  /** The middle loop of `map_questions`: the lines of one block. */
  method ScanLines(questionMap: QuestionMap, lines: seq<seq<string>>, top: real, ghost start: Dict, questions: seq<Header>)
    returns (found: seq<Header>)
    requires questionMap.Valid() && questionMap.Contents() == RegisterNames(start, questions)
    modifies questionMap
    ensures questionMap.Valid()
    ensures found == questions + LinesHeaders(lines, top)
    ensures questionMap.Contents() == RegisterNames(start, found)
  {
    found := questions;
    var l := 0;
    while l < |lines|
      invariant 0 <= l <= |lines|
      invariant questionMap.Valid()
      invariant found == questions + LinesHeaders(lines[..l], top)
      invariant questionMap.Contents() == RegisterNames(start, found)
    {
      LinesHeadersStep(questions, lines, l, top);
      found := ScanSpans(questionMap, lines[l], top, start, found);
      l := l + 1;
    }
    assert lines[..l] == lines;
  }

  /** The header occurrences of one block; a block without lines (an image block) has none. */
  method ScanBlock(questionMap: QuestionMap, block: Block, ghost start: Dict, questions: seq<Header>)
    returns (found: seq<Header>)
    requires questionMap.Valid() && questionMap.Contents() == RegisterNames(start, questions)
    modifies questionMap
    ensures questionMap.Valid()
    ensures found == questions + BlockHeaders(block)
    ensures questionMap.Contents() == RegisterNames(start, found)
  {
    found := questions;
    if block.lines.Some? {
      found := ScanLines(questionMap, block.lines.value, block.top, start, questions);
    }
  }

  /**
   * `map_questions`: scans blocks, lines and spans; for each span whose text
   * matches records `(name, block top)` and registers the name if new. Returns
   * the occurrences sorted by y.
   */
  method MapQuestions(questionMap: QuestionMap, blocks: seq<Block>) returns (questions: seq<Header>)
    requires questionMap.Valid()
    modifies questionMap
    ensures questionMap.Valid()
    ensures questions == SortByY(PageHeaders(blocks))
    ensures questionMap.Contents() == RegisterNames(old(questionMap.Contents()), PageHeaders(blocks))
  {
    ghost var start := questionMap.Contents();
    questions := [];
    var b := 0;
    while b < |blocks|
      invariant 0 <= b <= |blocks|
      invariant questionMap.Valid()
      invariant questions == PageHeaders(blocks[..b])
      invariant questionMap.Contents() == RegisterNames(start, questions)
    {
      PageHeadersStep(blocks, b);
      questions := ScanBlock(questionMap, blocks[b], start, questions);
      b := b + 1;
    }
    assert blocks[..b] == blocks;
    questions := SortByY(questions);
  }

  // ---------------------------------------------------------------------------
  // Image assignment
  // ---------------------------------------------------------------------------

  /** What the image loop reads besides the page: filter settings, document-wide counts, image bytes. */
  datatype ImageContext = ImageContext(cfg: FilterConfig, counts: map<nat, nat>, imageData: nat -> ImageData)

  /** Every header of `hs` names an entry of `d`. */
  predicate Registered(d: Dict, hs: seq<Header>) {
    forall h :: h in hs ==> h.name in d.lists
  }

  /**
   * One image of a page: skipped without a placement rectangle; otherwise the
   * top of its first rectangle picks the question, and the file name, if the
   * filter keeps the image, is appended unless already present.
   */
  function AssignImage(d: Dict, hs: seq<Header>, img: PageImage, ctx: ImageContext): (r: Dict)
    requires Registered(d, hs)
    ensures r.keys == d.keys && r.lists.Keys == d.lists.Keys
    ensures WellFormed(d) ==> WellFormed(r)
  {
    if img.rectTops == [] then d
    else
      match QuestionFor(hs, img.rectTops[0])
      case None => d
      case Some(q) =>
        assert q in d.lists by {
          var i := BandOf(hs, img.rectTops[0]).value;
          assert hs[i] in hs;
        }
        match ExtractAndFilterImage(ctx.cfg, img.xref, ctx.counts, q, ctx.imageData(img.xref))
        case None => d
        case Some(file) => AppendUnique(d, q, file)
  }

  /** The images of one page, in list order. */
  function AssignImages(d: Dict, hs: seq<Header>, images: seq<PageImage>, ctx: ImageContext): (r: Dict)
    requires Registered(d, hs)
    ensures r.keys == d.keys && r.lists.Keys == d.lists.Keys
    ensures WellFormed(d) ==> WellFormed(r)
    decreases |images|
  {
    if images == [] then d
    else AssignImage(AssignImages(d, hs, images[..|images| - 1], ctx), hs, images[|images| - 1], ctx)
  }

  /** One page of `map_images_to_questions`: register its headers, then place its images if it has any. */
  function PageStep(d: Dict, page: Page, ctx: ImageContext): (r: Dict)
    ensures WellFormed(d) ==> WellFormed(r)
  {
    var found := PageHeaders(page.blocks);
    var registered := RegisterNames(d, found);
    var questions := SortByY(found);
    if questions == [] then registered
    else
      assert Registered(registered, questions) by {
        SortedHeadersRegistered(d, found);
      }
      AssignImages(registered, questions, page.images, ctx)
  }

  function MapPages(pages: seq<Page>, ctx: ImageContext): (r: Dict)
    ensures WellFormed(r)
    decreases |pages|
  {
    if pages == [] then EmptyDict
    else PageStep(MapPages(pages[..|pages| - 1], ctx), pages[|pages| - 1], ctx)
  }

  /** The xrefs of each page's image list. */
  function PageXrefs(pages: seq<Page>): seq<seq<nat>> {
    seq(|pages|, p requires 0 <= p < |pages| =>
      seq(|pages[p].images|, i requires 0 <= i < |pages[p].images| => pages[p].images[i].xref))
  }

  /**
   * The result of `map_images_to_questions` on a whole document: distinct
   * keys, each a canonical question name, with duplicate-free lists of files
   * named after their key.
   */
  function ImageMap(pages: seq<Page>, imageData: nat -> ImageData, cfg: FilterConfig): (r: Dict)
    ensures WellFormed(r)
    ensures forall k :: k in r.lists ==> IsCanonicalName(k)
    ensures NamedAfterKeys(r)
  {
    var ctx := ImageContext(cfg, Tally(AllXrefs(PageXrefs(pages))), imageData);
    ImageMapKeysCanonical(pages, ctx);
    ImageMapFilesNamedAfterKeys(pages, ctx);
    MapPages(pages, ctx)
  }

  /** The image loop of one page, on the live map. */
  method AssignPageImages(questionMap: QuestionMap, questions: seq<Header>, images: seq<PageImage>, ctx: ImageContext)
    requires questionMap.Valid() && Registered(questionMap.Contents(), questions)
    modifies questionMap
    ensures questionMap.Valid()
    ensures questionMap.Contents() == AssignImages(old(questionMap.Contents()), questions, images, ctx)
  {
    ghost var start := questionMap.Contents();
    var i := 0;
    while i < |images|
      invariant 0 <= i <= |images|
      invariant questionMap.Valid()
      invariant questionMap.Contents() == AssignImages(start, questions, images[..i], ctx)
      invariant Registered(questionMap.Contents(), questions)
    {
      assert images[..i + 1][..i] == images[..i];
      var img := images[i];
      i := i + 1;
      if img.rectTops == [] {
        continue;
      }
      var imgY := img.rectTops[0];
      var current := FindQuestion(questions, imgY);
      if current.None? {
        continue;
      }
      var q := current.value;
      var file := ExtractAndFilterImage(ctx.cfg, img.xref, ctx.counts, q, ctx.imageData(img.xref));
      assert q in questionMap.lists by {
        var k := BandOf(questions, imgY).value;
        assert questions[k] in questions;
      }
      if file.Some? && file.value !in questionMap.lists[q] {
        questionMap.Append(q, file.value);
      }
    }
    assert images[..i] == images;
  }

  /**
   * `map_images_to_questions`: counts the image occurrences of the whole
   * document, then per page registers the headers and, when there are any,
   * places the page's images.
   */
  method MapImagesToQuestions(pages: seq<Page>, imageData: nat -> ImageData, cfg: FilterConfig)
    returns (questionMap: QuestionMap)
    ensures fresh(questionMap) && questionMap.Valid()
    ensures questionMap.Contents() == ImageMap(pages, imageData, cfg)
  {
    questionMap := new QuestionMap();
    var counts := CountImageOccurrences(PageXrefs(pages));
    var ctx := ImageContext(cfg, counts, imageData);
    var p := 0;
    while p < |pages|
      invariant 0 <= p <= |pages|
      invariant questionMap.Valid()
      invariant questionMap.Contents() == MapPages(pages[..p], ctx)
    {
      assert pages[..p + 1][..p] == pages[..p];
      var page := pages[p];
      p := p + 1;
      ghost var pre := questionMap.Contents();
      var questions := MapQuestions(questionMap, page.blocks);
      if questions == [] {
        continue;
      }
      SortedHeadersRegistered(pre, PageHeaders(page.blocks));
      AssignPageImages(questionMap, questions, page.images, ctx);
    }
    assert pages[..p] == pages;
  }

  // ---------------------------------------------------------------------------
  // Properties of the image map
  // ---------------------------------------------------------------------------

  /** A page without headers changes nothing and receives no image. */
  lemma HeaderlessPageIsNoOp(d: Dict, page: Page, ctx: ImageContext)
    requires PageHeaders(page.blocks) == []
    ensures PageStep(d, page, ctx) == d
  {
  }

  /** An image without a placement rectangle is skipped. */
  lemma UnplacedImageSkipped(d: Dict, hs: seq<Header>, img: PageImage, ctx: ImageContext)
    requires Registered(d, hs) && img.rectTops == []
    ensures AssignImage(d, hs, img, ctx) == d
  {
  }

  /**
   * An image changes at most one list: the list of the question whose band
   * holds the top of its first rectangle, which gains exactly the filter's
   * file name, and only when that name is new.
   */
  lemma AssignImageTarget(d: Dict, hs: seq<Header>, img: PageImage, ctx: ImageContext, k: string)
    requires Registered(d, hs) && k in d.lists
    requires AssignImage(d, hs, img, ctx).lists[k] != d.lists[k]
    ensures img.rectTops != [] && QuestionFor(hs, img.rectTops[0]) == Some(k)
    ensures var file := ExtractAndFilterImage(ctx.cfg, img.xref, ctx.counts, k, ctx.imageData(img.xref));
            file.Some? && file.value !in d.lists[k]
            && AssignImage(d, hs, img, ctx).lists[k] == d.lists[k] + [file.value]
  {
  }

  /** Every key is a canonical question name. */
  lemma {:induction false} ImageMapKeysCanonical(pages: seq<Page>, ctx: ImageContext)
    ensures forall k :: k in MapPages(pages, ctx).lists ==> IsCanonicalName(k)
    decreases |pages|
  {
    if pages != [] {
      var prev := MapPages(pages[..|pages| - 1], ctx);
      ImageMapKeysCanonical(pages[..|pages| - 1], ctx);
      var page := pages[|pages| - 1];
      PageHeadersCanonical(page.blocks);
      var registered := RegisterNames(prev, PageHeaders(page.blocks));
      RegisterNamesAdds(prev, PageHeaders(page.blocks));
      forall k | k in registered.lists ensures IsCanonicalName(k) {
        if k !in prev.lists {
          var h :| h in PageHeaders(page.blocks) && h.name == k;
        }
      }
    }
  }

  /** Every file in a question's list is named after that question: `"{question}_img..."`. */
  predicate NamedAfterKeys(d: Dict) {
    forall k, i :: k in d.lists && 0 <= i < |d.lists[k]| ==>
      |k + "_img"| <= |d.lists[k][i]| && d.lists[k][i][..|k + "_img"|] == k + "_img"
  }

  lemma AssignImageNamed(d: Dict, hs: seq<Header>, img: PageImage, ctx: ImageContext)
    requires Registered(d, hs) && NamedAfterKeys(d)
    ensures NamedAfterKeys(AssignImage(d, hs, img, ctx))
  {
    var r := AssignImage(d, hs, img, ctx);
    forall k, i | k in r.lists && 0 <= i < |r.lists[k]|
      ensures |k + "_img"| <= |r.lists[k][i]| && r.lists[k][i][..|k + "_img"|] == k + "_img"
    {
      if r.lists[k] != d.lists[k] && i == |d.lists[k]| {
        AssignImageTarget(d, hs, img, ctx, k);
        var f := ExtractAndFilterImage(ctx.cfg, img.xref, ctx.counts, k, ctx.imageData(img.xref)).value;
        assert f == k + "_img" + (NatToString(img.xref) + "." + ctx.imageData(img.xref).ext);
      } else if r.lists[k] != d.lists[k] {
        AssignImageTarget(d, hs, img, ctx, k);
        assert r.lists[k][i] == d.lists[k][i];
      }
    }
  }

  lemma {:induction false} AssignImagesNamed(d: Dict, hs: seq<Header>, images: seq<PageImage>, ctx: ImageContext)
    requires Registered(d, hs) && NamedAfterKeys(d)
    ensures NamedAfterKeys(AssignImages(d, hs, images, ctx))
    decreases |images|
  {
    if images != [] {
      AssignImagesNamed(d, hs, images[..|images| - 1], ctx);
      var prev := AssignImages(d, hs, images[..|images| - 1], ctx);
      assert Registered(prev, hs);
      AssignImageNamed(prev, hs, images[|images| - 1], ctx);
    }
  }

  /** Files are only ever filed under the question they are named after. */
  lemma {:induction false} ImageMapFilesNamedAfterKeys(pages: seq<Page>, ctx: ImageContext)
    ensures NamedAfterKeys(MapPages(pages, ctx))
    decreases |pages|
  {
    if pages != [] {
      var prev := MapPages(pages[..|pages| - 1], ctx);
      ImageMapFilesNamedAfterKeys(pages[..|pages| - 1], ctx);
      var page := pages[|pages| - 1];
      var found := PageHeaders(page.blocks);
      var registered := RegisterNames(prev, found);
      RegisterNamesKeeps(prev, found);
      RegisterNamesAdds(prev, found);
      assert NamedAfterKeys(registered);
      var questions := SortByY(found);
      if questions != [] {
        SortedHeadersRegistered(prev, found);
        AssignImagesNamed(registered, questions, page.images, ctx);
      }
    }
  }

  // ---------------------------------------------------------------------------
  // Exam text
  // ---------------------------------------------------------------------------

  /** The default `answer_key_separator`. */
  const AnswerKeySeparator := "\n\n--- Answer Key ---\n\n"

  /**
   * `extract_exam_text`: the exam's pages are read first, so the exam file's
   * `FileNotFoundError` or `ValueError` wins; the answer key is read, over all
   * of its pages, only when its file exists, and its own `ValueError` then
   * propagates; otherwise the key's text follows the exam's behind the separator.
   */
  function ExtractExamText(exam: PdfFile, answerKey: PdfFile, examStart: Option<int>, examEnd: Option<int>,
                           separator: string): (r: Result<string, ExtractError>)
    ensures !exam.present ==> r == Err(FileNotFound)
    ensures exam.present && !Readable(exam) ==> r == Err(NotPdf)
    ensures Readable(exam) && !answerKey.present ==> r == Ok(RangeBlocks(exam, examStart, examEnd))
    ensures Readable(exam) && answerKey.present && !Readable(answerKey) ==> r == Err(NotPdf)
    ensures Readable(exam) && Readable(answerKey) ==>
      r == Ok(RangeBlocks(exam, examStart, examEnd) + separator
              + PageBlocks(answerKey.pageTexts, 0, |answerKey.pageTexts|))
  {
    var examText :- ReadText(exam, examStart, examEnd);
    if !answerKey.present then Ok(examText)
    else
      var keyText :- ReadText(answerKey, None, None);
      RangeBlocksAll(answerKey);
      Ok(examText + separator + keyText)
  }
}
