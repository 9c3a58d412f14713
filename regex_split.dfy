/**
 * Python's `pattern.search`, `pattern.split` (for a pattern with one
 * capturing group around the whole expression) and `pattern.sub`, stated once
 * for any matcher that reports the length of the leftmost-greedy match at a
 * position. The header pattern of the chunkers and mappers and the rewrite
 * patterns of the question-id builder are such matchers; none of them looks
 * behind its start or anchors at a line start, so matching the rest of a
 * text after a match is the same as resuming the scan there.
 */
module RegexSplit {
  import opened Wrappers
  import opened Strings

  /** The length of the match that starts at position `i` of `t`, or 0 when there is none. */
  type Matcher = (string, nat) -> nat

  /** Matches stay inside the text. */
  ghost predicate InBounds(m: Matcher) {
    forall t: string, i: nat :: i <= |t| ==> i + m(t, i) <= |t|
  }

  /** A match found in a prefix of a text is also a match in the whole text. */
  ghost predicate PrefixStable(m: Matcher) {
    forall t: string, k: nat, j: nat :: j <= k <= |t| && m(t[..k], j) > 0 ==> m(t, j) > 0
  }

  /** Nothing matches anywhere in `s`, including at its end. */
  ghost predicate NoMatch(m: Matcher, s: string) {
    forall j :: 0 <= j <= |s| ==> m(s, j) == 0
  }

  /** Leftmost match position at `from` or later. */
  function FirstMatchFrom(m: Matcher, t: string, from: nat): (r: Option<nat>)
    requires from <= |t|
    ensures r.Some? ==> from <= r.value <= |t| && m(t, r.value) > 0
    decreases |t| - from
  {
    if m(t, from) > 0 then Some(from)
    else if from == |t| then None
    else FirstMatchFrom(m, t, from + 1)
  }

  /** The match found is the leftmost one, and none is found only when there is none. */
  lemma {:induction false} FirstMatchFromLeftmost(m: Matcher, t: string, from: nat)
    requires from <= |t|
    ensures FirstMatchFrom(m, t, from).Some? ==>
      forall j :: from <= j < FirstMatchFrom(m, t, from).value ==> m(t, j) == 0
    ensures FirstMatchFrom(m, t, from).None? ==> forall j :: from <= j <= |t| ==> m(t, j) == 0
    decreases |t| - from
  {
    if m(t, from) == 0 && from < |t| {
      FirstMatchFromLeftmost(m, t, from + 1);
    }
  }

  /** `pattern.search(t)`: the position of the leftmost match. */
  function Search(m: Matcher, t: string): (r: Option<nat>)
    ensures r.Some? ==> r.value <= |t| && m(t, r.value) > 0
  {
    FirstMatchFrom(m, t, 0)
  }

  /** `search` finds nothing exactly when nothing matches. */
  lemma SearchNoneIff(m: Matcher, t: string)
    ensures Search(m, t).None? <==> NoMatch(m, t)
  {
    FirstMatchFromLeftmost(m, t, 0);
  }

  /**
   * `pattern.split(t)`: the text before the leftmost match, the matched text
   * (the capturing group), then the split of what follows the match.
   */
  function Split(m: Matcher, t: string): (parts: seq<string>)
    requires InBounds(m)
    ensures |parts| % 2 == 1
    decreases |t|
  {
    match Search(m, t)
    case None => [t]
    case Some(i) =>
      var n := m(t, i);
      [t[..i], t[i..i + n]] + Split(m, t[i + n..])
  }

  /** One step of the split, for a text in which the pattern matches. */
  lemma SplitStep(m: Matcher, t: string) returns (i: nat, n: nat)
    requires InBounds(m) && Search(m, t).Some?
    ensures Search(m, t) == Some(i) && n == m(t, i) > 0 && i + n <= |t|
    ensures Split(m, t) == [t[..i], t[i..i + n]] + Split(m, t[i + n..])
  {
    i := Search(m, t).value;
    n := m(t, i);
  }

  /** The parts partition the text: joining them gives it back. */
  lemma {:induction false} SplitJoins(m: Matcher, t: string)
    requires InBounds(m)
    ensures Concat(Split(m, t)) == t
    decreases |t|
  {
    if Search(m, t).Some? {
      var i, n := SplitStep(m, t);
      var rest := Split(m, t[i + n..]);
      SplitJoins(m, t[i + n..]);
      var parts := [t[..i], t[i..i + n]] + rest;
      assert parts[1..][1..] == rest;
      assert t == t[..i] + t[i..i + n] + t[i + n..];
    }
  }

  /** Every odd-indexed part is the text of a match, taken at the match's own position. */
  lemma {:induction false} SplitMatchPart(m: Matcher, t: string, k: nat) returns (u: string, i: nat)
    requires InBounds(m) && k < |Split(m, t)| && k % 2 == 1
    ensures i <= |u| && m(u, i) > 0 && i + m(u, i) <= |u|
    ensures Split(m, t)[k] == u[i..i + m(u, i)]
    decreases |t|
  {
    var j, n := SplitStep(m, t);
    var rest := Split(m, t[j + n..]);
    if k == 1 {
      u, i := t, j;
    } else {
      u, i := SplitMatchPart(m, t[j + n..], k - 2);
      assert Split(m, t)[k] == rest[k - 2];
    }
  }

  /** The text before the leftmost match contains no match. */
  lemma PreambleNoMatch(m: Matcher, t: string, i: nat)
    requires InBounds(m) && PrefixStable(m) && Search(m, t) == Some(i)
    ensures NoMatch(m, t[..i])
  {
    FirstMatchFromLeftmost(m, t, 0);
    forall j | 0 <= j <= i ensures m(t[..i], j) == 0 {
      assert j + m(t[..i], j) <= |t[..i]|;
    }
  }

  /** No even-indexed part (the preamble or the text between two matches) contains a match. */
  lemma {:induction false} SplitGapPart(m: Matcher, t: string, k: nat)
    requires InBounds(m) && PrefixStable(m) && k < |Split(m, t)| && k % 2 == 0
    ensures NoMatch(m, Split(m, t)[k])
    decreases |t|
  {
    if Search(m, t).None? {
      SearchNoneIff(m, t);
    } else {
      var i, n := SplitStep(m, t);
      var rest := Split(m, t[i + n..]);
      if k == 0 {
        PreambleNoMatch(m, t, i);
      } else {
        SplitGapPart(m, t[i + n..], k - 2);
        assert Split(m, t)[k] == rest[k - 2];
      }
    }
  }

  /** A text in which nothing matches splits into itself alone. */
  lemma SplitOfNoMatch(m: Matcher, t: string)
    requires InBounds(m) && NoMatch(m, t)
    ensures Split(m, t) == [t]
  {
    SearchNoneIff(m, t);
  }

  /** The matched texts `re.split` returns, in text order. */
  function MatchesOf(parts: seq<string>): (hs: seq<string>)
    requires |parts| % 2 == 1
    ensures |hs| == |parts| / 2
    ensures forall k :: 0 <= k < |hs| ==> hs[k] == parts[2 * k + 1]
  {
    seq(|parts| / 2, k requires 0 <= k < |parts| / 2 => parts[2 * k + 1])
  }

  /** What a match at a position is replaced with: the replacement template filled from the match's groups. */
  type Replacer = (string, nat) -> string

  /**
   * `pattern.sub(repl, t)`: the leftmost match is replaced, then the scan
   * resumes after it. Every pattern used here only matches non-empty text.
   */
  function Sub(m: Matcher, rep: Replacer, t: string): string
    requires InBounds(m)
    decreases |t|
  {
    match Search(m, t)
    case None => t
    case Some(i) => t[..i] + rep(t, i) + Sub(m, rep, t[i + m(t, i)..])
  }

  /** The replacements of `rep` stay within the character class `q` when the text does. */
  ghost predicate KeepsClass(m: Matcher, rep: Replacer, q: char -> bool) {
    forall t: string, i: nat :: i <= |t| && m(t, i) > 0 && AllSatisfy(t, q) ==> AllSatisfy(rep(t, i), q)
  }

  /** Substituting within a character class stays in it. */
  lemma {:induction false} SubKeepsClass(m: Matcher, rep: Replacer, t: string, q: char -> bool)
    requires InBounds(m) && KeepsClass(m, rep, q) && AllSatisfy(t, q)
    ensures AllSatisfy(Sub(m, rep, t), q)
    decreases |t|
  {
    if Search(m, t).Some? {
      var i := Search(m, t).value;
      var rest := t[i + m(t, i)..];
      assert AllSatisfy(rest, q) by {
        forall k | 0 <= k < |rest| ensures q(rest[k]) {
          assert rest[k] == t[i + m(t, i) + k];
        }
      }
      SubKeepsClass(m, rep, rest, q);
      var a, b, c := t[..i], rep(t, i), Sub(m, rep, rest);
      assert AllSatisfy(a, q) by {
        forall k | 0 <= k < |a| ensures q(a[k]) {
          assert a[k] == t[k];
        }
      }
      forall k | 0 <= k < |a + b + c| ensures q((a + b + c)[k]) {
        if k < |a| {
          assert (a + b + c)[k] == a[k];
        } else if k < |a| + |b| {
          assert (a + b + c)[k] == b[k - |a|];
        } else {
          assert (a + b + c)[k] == c[k - |a| - |b|];
        }
      }
    }
  }

  /** Where nothing matches, substituting changes nothing. */
  lemma SubOfNoMatch(m: Matcher, rep: Replacer, t: string)
    requires InBounds(m) && NoMatch(m, t)
    ensures Sub(m, rep, t) == t
  {
    SearchNoneIff(m, t);
  }

  /** A match that covers the whole text is replaced as a whole. */
  lemma SubOfWholeMatch(m: Matcher, rep: Replacer, t: string)
    requires InBounds(m) && m(t, 0) == |t| > 0 && m([], 0) == 0
    ensures Sub(m, rep, t) == rep(t, 0)
  {
    assert Search(m, t) == Some(0);
    assert t[|t|..] == [];
    assert Search(m, []) == None;
  }
}
