/**
 * The question-header pattern `(QUESTÃO\s+\d+)` shared by the image mapper,
 * the legacy mapper and the two chunkers: where it matches, the question number
 * it carries, the canonical name "QUESTÃO NN" it is normalised to, and
 * `re.split` with that capturing pattern.
 */
module Headers {
  import opened Wrappers
  import opened Strings
  import opened RegexSplit

  /** The literal that starts every header (seven characters, with a composed Ã). */
  const Marker: string := "QUESTÃO"

  /**
   * One literal character of the pattern against one text character. Under
   * `re.IGNORECASE` an upper-case letter also matches its lower-case form, and
   * Python additionally lets `S` match the long s U+017F.
   */
  predicate LiteralMatches(p: char, c: char, ignoreCase: bool) {
    || c == p
    || (ignoreCase && ('A' <= p <= 'Z' || ('\U{C0}' <= p <= '\U{DE}' && p != '\U{D7}'))
        && c == (p as int + 32) as char)
    || (ignoreCase && p == 'S' && c == '\U{17F}')
  }

  /** The marker literal matches the text at position `i`. */
  predicate MarkerAt(t: string, i: nat, ignoreCase: bool) {
    i + |Marker| <= |t| && MarkerFrom(t, i, 0, ignoreCase)
  }

  /** Characters `k..` of the marker literal match the text from `i + k` on. */
  predicate MarkerFrom(t: string, i: nat, k: nat, ignoreCase: bool)
    requires i + |Marker| <= |t| && k <= |Marker|
    decreases |Marker| - k
  {
    k == |Marker| || (LiteralMatches(Marker[k], t[i + k], ignoreCase) && MarkerFrom(t, i, k + 1, ignoreCase))
  }

  lemma {:induction false} MarkerFromIff(t: string, i: nat, k: nat, ignoreCase: bool)
    requires i + |Marker| <= |t| && k <= |Marker|
    ensures MarkerFrom(t, i, k, ignoreCase)
            <==> forall j :: k <= j < |Marker| ==> LiteralMatches(Marker[j], t[i + j], ignoreCase)
    decreases |Marker| - k
  {
    if k < |Marker| {
      MarkerFromIff(t, i, k + 1, ignoreCase);
    }
  }

  /** Character by character: the marker matches at `i` when each of its seven letters does. */
  lemma MarkerAtIff(t: string, i: nat, ignoreCase: bool)
    ensures MarkerAt(t, i, ignoreCase)
            <==> i + |Marker| <= |t| && forall j :: 0 <= j < |Marker| ==> LiteralMatches(Marker[j], t[i + j], ignoreCase)
  {
    if i + |Marker| <= |t| {
      MarkerFromIff(t, i, 0, ignoreCase);
    }
  }

  /**
   * Length of the match of `QUESTÃO\s+\d+` that starts at position `i`, or 0
   * when the pattern does not match there. Both runs are greedy and nothing
   * follows them, so a match takes the whole run of spaces and of digits.
   */
  function HeaderLenAt(t: string, i: nat, ignoreCase: bool): (n: nat)
    requires i <= |t|
    ensures i + n <= |t|
    ensures n > 0 ==> n > |Marker| + 1 && MarkerAt(t, i, ignoreCase)
  {
    if MarkerAt(t, i, ignoreCase) then
      var sp := SpaceRunLength(t, i + |Marker|);
      var dg := DigitRunLength(t, i + |Marker| + sp);
      if sp == 0 || dg == 0 then 0 else |Marker| + sp + dg
    else 0
  }

  /** Whole-string form of the pattern: a header text as `re.split` hands it back. */
  predicate IsHeaderText(h: string, ignoreCase: bool) {
    && MarkerAt(h, 0, ignoreCase)
    && exists m :: |Marker| < m < |h| && AllSatisfy(h[|Marker|..m], IsSpace) && AllDigits(h[m..])
  }

  /** Whether the marker matches depends only on the seven characters it covers. */
  lemma MarkerAtSame(t: string, i: nat, u: string, j: nat, ignoreCase: bool)
    requires i + |Marker| <= |t| && j + |Marker| <= |u| && t[i..i + |Marker|] == u[j..j + |Marker|]
    ensures MarkerAt(t, i, ignoreCase) <==> MarkerAt(u, j, ignoreCase)
  {
    MarkerAtIff(t, i, ignoreCase);
    MarkerAtIff(u, j, ignoreCase);
    forall q | 0 <= q < |Marker|
      ensures LiteralMatches(Marker[q], t[i + q], ignoreCase) == LiteralMatches(Marker[q], u[j + q], ignoreCase)
    {
      assert t[i..i + |Marker|][q] == u[j..j + |Marker|][q];
    }
  }

  /** The marker, `sp` spaces and `dg` digits at position `i` of `t` form a header text. */
  lemma HeaderTextAt(t: string, i: nat, sp: nat, dg: nat, ignoreCase: bool)
    requires i + |Marker| + sp + dg <= |t| && 0 < sp && 0 < dg && MarkerAt(t, i, ignoreCase)
    requires AllSatisfy(t[i + |Marker|..i + |Marker| + sp], IsSpace)
    requires AllDigits(t[i + |Marker| + sp..i + |Marker| + sp + dg])
    ensures IsHeaderText(t[i..i + |Marker| + sp + dg], ignoreCase)
  {
    var h := t[i..i + |Marker| + sp + dg];
    var m := |Marker| + sp;
    assert h[0..|Marker|] == t[i..i + |Marker|];
    MarkerAtSame(h, 0, t, i, ignoreCase);
    assert h[|Marker|..m] == t[i + |Marker|..i + m];
    assert h[m..] == t[i + m..i + m + dg];
  }

  /** The matched text at a match position is a header text. */
  lemma MatchIsHeaderText(t: string, i: nat, ignoreCase: bool)
    requires i <= |t| && HeaderLenAt(t, i, ignoreCase) > 0
    ensures IsHeaderText(t[i..i + HeaderLenAt(t, i, ignoreCase)], ignoreCase)
  {
    var p := i + |Marker|;
    var sp := SpaceRunLength(t, p);
    var dg := DigitRunLength(t, p + sp);
    assert HeaderLenAt(t, i, ignoreCase) == |Marker| + sp + dg;
    SpaceRunFacts(t, p);
    DigitRunFacts(t, p + sp);
    HeaderTextAt(t, i, sp, dg, ignoreCase);
  }



  /** The header pattern as a matcher: the match length at any position. */
  function HeaderMatcher(ignoreCase: bool): Matcher {
    (t: string, i: nat) => if i <= |t| then HeaderLenAt(t, i, ignoreCase) else 0
  }

  /** Header matches stay in the text, and a match in a prefix is a match in the whole text. */
  lemma HeaderMatcherSound(ignoreCase: bool)
    ensures InBounds(HeaderMatcher(ignoreCase)) && PrefixStable(HeaderMatcher(ignoreCase))
  {
    var m := HeaderMatcher(ignoreCase);
    forall t: string, k: nat, j: nat | j <= k <= |t| && m(t[..k], j) > 0 ensures m(t, j) > 0 {
      MatchInPrefix(t[..k], t, j, ignoreCase);
    }
  }

  /** `pattern.search(t)`: the leftmost match position. */
  function SearchHeader(t: string, ignoreCase: bool): (r: Option<nat>)
    ensures r.Some? ==> r.value <= |t| && HeaderLenAt(t, r.value, ignoreCase) > 0
  {
    Search(HeaderMatcher(ignoreCase), t)
  }

  /** The question number a match carries: `int(re.search(r"\d+", match.group(1)).group())`. */
  function HeaderNumber(t: string, i: nat, ignoreCase: bool): nat
    requires i <= |t| && HeaderLenAt(t, i, ignoreCase) > 0
  {
    var sp := SpaceRunLength(t, i + |Marker|);
    DigitRunFacts(t, i + |Marker| + sp);
    DigitsValue(t[i + |Marker| + sp..i + HeaderLenAt(t, i, ignoreCase)])
  }

  /** The canonical question name `f"QUESTÃO {q_num:02d}"`. */
  function CanonicalName(n: nat): string {
    Marker + " " + Format02(n)
  }

  /**
   * The name a text span contributes under the case-insensitive pattern, if any:
   * the canonical name of the number of its leftmost header (`pattern.search`).
   */
  function SpanHeaderName(text: string): (r: Option<string>)
    ensures r.Some? ==> IsCanonicalName(r.value)
  {
    match SearchHeader(text, true)
    case None => None
    case Some(i) => Some(CanonicalName(HeaderNumber(text, i, true)))
  }

  /** A span yields a name exactly when the pattern matches somewhere in it. */
  lemma SpanHeaderNameIff(text: string)
    ensures SpanHeaderName(text).Some? <==> exists i :: 0 <= i <= |text| && HeaderLenAt(text, i, true) > 0
  {
    var m := HeaderMatcher(true);
    SearchNoneIff(m, text);
    assert forall i :: 0 <= i <= |text| ==> m(text, i) == HeaderLenAt(text, i, true);
  }

  /** A question-map key: the canonical name of some question number. */
  ghost predicate IsCanonicalName(s: string) {
    exists n: nat :: s == CanonicalName(n)
  }

  /** Two names are equal exactly when the question numbers are: "QUESTÃO 1" and "QUESTÃO 01" share a key. */
  lemma CanonicalNameInjective(a: nat, b: nat)
    ensures CanonicalName(a) == CanonicalName(b) <==> a == b
  {
    if CanonicalName(a) == CanonicalName(b) {
      assert Format02(a) == CanonicalName(a)[|Marker| + 1..] == CanonicalName(b)[|Marker| + 1..] == Format02(b);
      Format02Injective(a, b);
    }
  }

  /** A text that starts with the literal has the marker at position 0, in either mode. */
  lemma MarkerAtStart(t: string, ignoreCase: bool)
    requires |Marker| <= |t| && t[..|Marker|] == Marker
    ensures MarkerAt(t, 0, ignoreCase)
  {
    MarkerAtIff(t, 0, ignoreCase);
    forall j | 0 <= j < |Marker| ensures t[j] == Marker[j] {
      assert t[..|Marker|][j] == t[j];
    }
  }

  /** Canonicalisation is idempotent: a canonical name read as a span yields itself. */
  lemma CanonicalNameRoundTrip(n: nat)
    ensures SpanHeaderName(CanonicalName(n)) == Some(CanonicalName(n))
  {
    var t := CanonicalName(n);
    var f := Format02(n);
    assert t == Marker + " " + f;
    assert t[..|Marker|] == Marker;
    MarkerAtStart(t, true);
    assert SpaceRunLength(t, |Marker|) == 1 by {
      assert IsSpace(t[|Marker|]);
      assert SpaceRunLength(t, |Marker| + 1) == 0 by { assert IsDigit(t[|Marker| + 1]); }
    }
    assert t[|Marker| + 1..] == f;
    DigitRunToEnd(t, |Marker| + 1);
    assert HeaderLenAt(t, 0, true) == |t|;
    assert t[|Marker| + 1..|t|] == f;
    assert HeaderNumber(t, 0, true) == n;
    assert SearchHeader(t, true) == Some(0);
  }

  /** A string that is all digits from `i` on has its digit run reach the end. */
  lemma {:induction false} DigitRunToEnd(t: string, i: nat)
    requires i <= |t| && AllDigits(t[i..])
    ensures DigitRunLength(t, i) == |t| - i
    decreases |t| - i
  {
    if i < |t| {
      assert IsDigit(t[i..][0]);
      assert t[i + 1..] == t[i..][1..];
      DigitRunToEnd(t, i + 1);
    }
  }

  /** Runs of whitespace are decided by the characters up to the first non-space. */
  lemma {:induction false} SpaceRunOfPrefix(u: string, t: string, j: nat)
    requires |u| <= |t| && u == t[..|u|] && j <= |u|
    requires j + SpaceRunLength(u, j) < |u|
    ensures SpaceRunLength(t, j) == SpaceRunLength(u, j)
    decreases |u| - j
  {
    if IsSpace(u[j]) {
      SpaceRunOfPrefix(u, t, j + 1);
    }
  }

  /** A match inside a prefix of `t` is a match in `t` too. */
  lemma MatchInPrefix(u: string, t: string, j: nat, ignoreCase: bool)
    requires |u| <= |t| && u == t[..|u|] && j <= |u|
    requires HeaderLenAt(u, j, ignoreCase) > 0
    ensures HeaderLenAt(t, j, ignoreCase) > 0
  {
    var p := j + |Marker|;
    assert u[j..p] == t[j..p];
    MarkerAtSame(u, j, t, j, ignoreCase);
    var sp := SpaceRunLength(u, p);
    DigitRunFacts(u, p + sp);
    assert IsDigit(u[p + sp]);
    SpaceRunOfPrefix(u, t, p);
    assert t[p + sp] == u[p + sp];
  }

  /** No header matches anywhere in `s`. */
  predicate HeaderFree(s: string, ignoreCase: bool) {
    forall j :: 0 <= j <= |s| ==> HeaderLenAt(s, j, ignoreCase) == 0
  }

  lemma HeaderFreeIsNoMatch(s: string, ignoreCase: bool)
    ensures HeaderFree(s, ignoreCase) <==> NoMatch(HeaderMatcher(ignoreCase), s)
  {
    var m := HeaderMatcher(ignoreCase);
    assert forall j :: 0 <= j <= |s| ==> m(s, j) == HeaderLenAt(s, j, ignoreCase);
  }

  /**
   * `pattern.split(t)` for the capturing header pattern: the text before the
   * first header, then alternately a header and the text up to the next one.
   */
  function SplitOnHeaders(t: string, ignoreCase: bool): (parts: seq<string>)
    ensures |parts| % 2 == 1
  {
    HeaderMatcherSound(ignoreCase);
    Split(HeaderMatcher(ignoreCase), t)
  }

  /** The parts partition the text: joining them gives it back. */
  lemma SplitConcat(t: string, ignoreCase: bool)
    ensures Concat(SplitOnHeaders(t, ignoreCase)) == t
  {
    HeaderMatcherSound(ignoreCase);
    SplitJoins(HeaderMatcher(ignoreCase), t);
  }

  /** Every odd-indexed part is a header text. */
  lemma SplitHeaderParts(t: string, ignoreCase: bool, k: nat)
    requires k < |SplitOnHeaders(t, ignoreCase)| && k % 2 == 1
    ensures IsHeaderText(SplitOnHeaders(t, ignoreCase)[k], ignoreCase)
  {
    HeaderMatcherSound(ignoreCase);
    var u, i := SplitMatchPart(HeaderMatcher(ignoreCase), t, k);
    MatchIsHeaderText(u, i, ignoreCase);
  }

  /** No even-indexed part (the preamble or a question body) contains a header. */
  lemma SplitTextParts(t: string, ignoreCase: bool, k: nat)
    requires k < |SplitOnHeaders(t, ignoreCase)| && k % 2 == 0
    ensures HeaderFree(SplitOnHeaders(t, ignoreCase)[k], ignoreCase)
  {
    HeaderMatcherSound(ignoreCase);
    SplitGapPart(HeaderMatcher(ignoreCase), t, k);
    HeaderFreeIsNoMatch(SplitOnHeaders(t, ignoreCase)[k], ignoreCase);
  }

  /** A text with no header splits into itself alone. */
  lemma SplitWithoutHeader(t: string, ignoreCase: bool)
    requires HeaderFree(t, ignoreCase)
    ensures SplitOnHeaders(t, ignoreCase) == [t]
  {
    HeaderMatcherSound(ignoreCase);
    HeaderFreeIsNoMatch(t, ignoreCase);
    SplitOfNoMatch(HeaderMatcher(ignoreCase), t);
  }

  /** The case-sensitive pattern matches only where the case-insensitive one does. */
  lemma CaseSensitiveMatchIsInsensitiveMatch(t: string, i: nat)
    requires i <= |t| && HeaderLenAt(t, i, false) > 0
    ensures HeaderLenAt(t, i, true) == HeaderLenAt(t, i, false)
  {
    MarkerAtIff(t, i, false);
    MarkerAtIff(t, i, true);
  }

  /** A case-sensitive header text starts with the exact literal "QUESTÃO". */
  lemma CaseSensitiveHeaderHasMarker(h: string)
    requires IsHeaderText(h, false)
    ensures Contains(h, Marker)
  {
    MarkerAtIff(h, 0, false);
    assert h[..|Marker|] == Marker;
    ContainsPrefix(h, Marker);
  }
}
