/**
 * String helpers that stand for the Python built-ins the pipeline relies on:
 * `str.isspace`, `str.strip`, `in` on strings, `str.find`/`str.split(sep, 1)`,
 * `str.join`, `int(...)` on a run of digits and the `{n:02d}` / `str(n)` formats.
 */
module Strings {
  import opened Wrappers

  // ---------------------------------------------------------------------------
  // Whitespace and stripping
  // ---------------------------------------------------------------------------

  /** Python's `str.isspace()` on one character (also what `\s` matches in a `str` pattern). */
  predicate IsSpace(c: char) {
    || c == ' ' || c == '\t' || c == '\n' || c == '\r' || c == '\U{B}' || c == '\U{C}'
    || ('\U{1C}' <= c <= '\U{1F}') || c == '\U{85}' || c == '\U{A0}' || c == '\U{1680}'
    || ('\U{2000}' <= c <= '\U{200A}') || c == '\U{2028}' || c == '\U{2029}'
    || c == '\U{202F}' || c == '\U{205F}' || c == '\U{3000}'
  }

  predicate AllSatisfy(s: string, p: char -> bool) {
    forall k :: 0 <= k < |s| ==> p(s[k])
  }

  /** Nothing to strip at either end. */
  predicate IsStrippedBy(s: string, p: char -> bool) {
    s == [] || (!p(s[0]) && !p(s[|s| - 1]))
  }

  /** Drops the leading characters that satisfy `p`. */
  function TrimLeftBy(s: string, p: char -> bool): (r: string)
    ensures |r| <= |s| && (r == [] || !p(r[0]))
  {
    if s != [] && p(s[0]) then TrimLeftBy(s[1..], p) else s
  }

  /** What is left is a suffix, and everything dropped satisfies `p`. */
  lemma {:induction false} TrimLeftByFacts(s: string, p: char -> bool)
    ensures TrimLeftBy(s, p) == s[|s| - |TrimLeftBy(s, p)|..]
    ensures AllSatisfy(s[..|s| - |TrimLeftBy(s, p)|], p)
  {
    if s != [] && p(s[0]) {
      TrimLeftByFacts(s[1..], p);
      var n := |s| - |TrimLeftBy(s, p)|;
      assert s[1..][|s| - 1 - |TrimLeftBy(s, p)|..] == s[n..];
      forall k | 0 <= k < n ensures p(s[..n][k]) {
        if k > 0 {
          assert s[..n][k] == s[1..][..n - 1][k - 1];
        }
      }
    }
  }

  /** Drops the trailing characters that satisfy `p`. */
  function TrimRightBy(s: string, p: char -> bool): (r: string)
    ensures |r| <= |s| && (r == [] || !p(r[|r| - 1]))
  {
    if s != [] && p(s[|s| - 1]) then TrimRightBy(s[..|s| - 1], p) else s
  }

  /** What is left is a prefix, and everything dropped satisfies `p`. */
  lemma {:induction false} TrimRightByFacts(s: string, p: char -> bool)
    ensures TrimRightBy(s, p) == s[..|TrimRightBy(s, p)|]
    ensures AllSatisfy(s[|TrimRightBy(s, p)|..], p)
  {
    if s != [] && p(s[|s| - 1]) {
      var init := s[..|s| - 1];
      TrimRightByFacts(init, p);
      var n := |TrimRightBy(s, p)|;
      assert init[..n] == s[..n];
      forall k | 0 <= k < |s| - n ensures p(s[n..][k]) {
        if n + k < |s| - 1 {
          assert s[n..][k] == init[n..][k];
        }
      }
    }
  }

  /**
   * Python's `s.strip(chars)`: the longest infix of `s` that neither starts nor
   * ends with a character of the stripped class, obtained by removing only such
   * characters from the two ends.
   */
  function StripBy(s: string, p: char -> bool): (r: string)
    ensures IsStrippedBy(r, p)
    ensures IsStrippedBy(s, p) ==> r == s
  {
    var right := TrimRightBy(s, p);
    TrimLeftByFacts(right, p);
    TrimLeftBy(right, p)
  }

  /** What strip removes: the strip is the infix at `i`, and only stripped characters surround it. */
  lemma StripByInfix(s: string, p: char -> bool) returns (i: nat)
    ensures i + |StripBy(s, p)| <= |s| && StripBy(s, p) == s[i..i + |StripBy(s, p)|]
    ensures AllSatisfy(s[..i], p) && AllSatisfy(s[i + |StripBy(s, p)|..], p)
  {
    var right := TrimRightBy(s, p);
    var r := TrimLeftBy(right, p);
    TrimRightByFacts(s, p);
    TrimLeftByFacts(right, p);
    i := |right| - |r|;
    assert r == s[i..i + |r|];
    assert s[..i] == right[..i];
    assert s[i + |r|..] == s[|right|..];
  }

  /** Python's `s.strip()` (Unicode whitespace). */
  function Strip(s: string): (r: string)
    ensures IsStrippedBy(r, IsSpace)
    ensures |r| <= |s|
  {
    StripBy(s, IsSpace)
  }

  /** Only an all-whitespace string strips to the empty string. */
  lemma StripEmptyIff(s: string)
    ensures Strip(s) == [] <==> AllSatisfy(s, IsSpace)
  {
    var i := StripByInfix(s, IsSpace);
    if Strip(s) == [] {
      forall k | 0 <= k < |s| ensures IsSpace(s[k]) {
        if k < i { assert s[..i][k] == s[k]; } else { assert s[i..][k - i] == s[k]; }
      }
    }
  }

  /** A string with nothing to strip is its own strip. */
  lemma StripOfStripped(s: string)
    requires IsStrippedBy(s, IsSpace)
    ensures Strip(s) == s
  {
  }

  /** Python's truthiness of `s.strip()`: false exactly for blank strings. */
  predicate IsBlank(s: string) {
    Strip(s) == []
  }

  // ---------------------------------------------------------------------------
  // Substring search
  // ---------------------------------------------------------------------------

  predicate OccursAt(s: string, sub: string, i: nat) {
    i + |sub| <= |s| && s[i..i + |sub|] == sub
  }

  /** Leftmost occurrence of `sub` in `s` at position `i` or later. */
  function FindFrom(s: string, sub: string, i: nat): Option<nat>
    decreases |s| - i
  {
    if i + |sub| > |s| then None
    else if OccursAt(s, sub, i) then Some(i)
    else FindFrom(s, sub, i + 1)
  }

  /** Python's `s.find(sub)`, with `None` for -1. */
  function Find(s: string, sub: string): Option<nat> {
    FindFrom(s, sub, 0)
  }

  /** Python's `sub in s`. */
  predicate Contains(s: string, sub: string) {
    Find(s, sub).Some?
  }

  lemma {:induction false} FindFromIsLeftmost(s: string, sub: string, i: nat)
    ensures FindFrom(s, sub, i).Some? ==>
              var k := FindFrom(s, sub, i).value;
              i <= k && OccursAt(s, sub, k) && forall j :: i <= j < k ==> !OccursAt(s, sub, j)
    ensures FindFrom(s, sub, i).None? ==> forall j :: i <= j ==> !OccursAt(s, sub, j)
    decreases |s| - i
  {
    if i + |sub| > |s| {
    } else if OccursAt(s, sub, i) {
    } else {
      FindFromIsLeftmost(s, sub, i + 1);
    }
  }

  /** `Find` returns exactly the leftmost occurrence, and `None` when there is none. */
  lemma FindIsLeftmost(s: string, sub: string)
    ensures Find(s, sub).Some? ==>
              var k := Find(s, sub).value;
              OccursAt(s, sub, k) && forall j :: 0 <= j < k ==> !OccursAt(s, sub, j)
    ensures Find(s, sub).None? ==> forall j: nat :: !OccursAt(s, sub, j)
  {
    FindFromIsLeftmost(s, sub, 0);
  }

  /** `sub in s` holds exactly when `sub` occurs somewhere in `s`. */
  lemma ContainsIff(s: string, sub: string)
    ensures Contains(s, sub) <==> exists j: nat :: OccursAt(s, sub, j)
  {
    FindIsLeftmost(s, sub);
  }

  /** An occurrence at a known place is found. */
  lemma ContainsAt(s: string, sub: string, j: nat)
    requires OccursAt(s, sub, j)
    ensures Contains(s, sub)
  {
    FindIsLeftmost(s, sub);
  }

  /** A string that starts with `sub` contains it. */
  lemma ContainsPrefix(s: string, sub: string)
    requires |sub| <= |s| && s[..|sub|] == sub
    ensures Contains(s, sub)
  {
    ContainsAt(s, sub, 0);
  }

  // ---------------------------------------------------------------------------
  // Joining
  // ---------------------------------------------------------------------------

  /** Python's `sep.join(parts)`. */
  function Join(parts: seq<string>, sep: string): string {
    if |parts| == 0 then []
    else if |parts| == 1 then parts[0]
    else parts[0] + sep + Join(parts[1..], sep)
  }

  /** Concatenation of a list of strings, `"".join(parts)`. */
  function Concat(parts: seq<string>): string {
    if parts == [] then [] else parts[0] + Concat(parts[1..])
  }

  lemma {:induction false} ConcatAppend(a: seq<string>, b: seq<string>)
    ensures Concat(a + b) == Concat(a) + Concat(b)
  {
    if a == [] {
      assert a + b == b;
    } else {
      assert (a + b)[1..] == a[1..] + b;
      ConcatAppend(a[1..], b);
    }
  }

  // ---------------------------------------------------------------------------
  // Digits and integer formatting
  // ---------------------------------------------------------------------------

  /** An ASCII decimal digit (the `\d` of the patterns, restricted to ASCII). */
  predicate IsDigit(c: char) {
    '0' <= c <= '9'
  }

  predicate AllDigits(s: string) {
    forall k :: 0 <= k < |s| ==> IsDigit(s[k])
  }

  function DigitChar(d: nat): (c: char)
    requires d < 10
    ensures IsDigit(c)
  {
    ('0' as int + d) as char
  }

  function DigitValue(c: char): (d: nat)
    requires IsDigit(c)
    ensures d < 10 && DigitChar(d) == c
  {
    c as int - '0' as int
  }

  /** Python's `str(n)` for a natural number: decimal, no leading zero. */
  function NatToString(n: nat): (r: string)
    ensures |r| >= 1 && AllDigits(r)
    ensures |r| > 1 ==> r[0] != '0'
  {
    if n < 10 then [DigitChar(n)] else NatToString(n / 10) + [DigitChar(n % 10)]
  }

  /** Python's `int(s)` for a non-empty run of ASCII digits (leading zeros allowed). */
  function DigitsValue(s: string): nat
    requires AllDigits(s)
  {
    if s == [] then 0 else DigitsValue(s[..|s| - 1]) * 10 + DigitValue(s[|s| - 1])
  }

  /** Reading back a printed number gives the number: `int(str(n)) == n`. */
  lemma {:induction false} DigitsValueOfNatToString(n: nat)
    ensures DigitsValue(NatToString(n)) == n
  {
    var r := NatToString(n);
    if n >= 10 {
      DigitsValueOfNatToString(n / 10);
      assert r[..|r| - 1] == NatToString(n / 10);
    }
  }

  /** Leading zeros do not change the value: `int("0" + s) == int(s)`. */
  lemma {:induction false} DigitsValueLeadingZero(s: string)
    requires AllDigits(s)
    ensures AllDigits("0" + s) && DigitsValue("0" + s) == DigitsValue(s)
  {
    if s != [] {
      assert ("0" + s)[..|"0" + s| - 1] == "0" + s[..|s| - 1];
      DigitsValueLeadingZero(s[..|s| - 1]);
    }
  }

  /** Python's `str(i)` for any integer. */
  function IntToString(i: int): (r: string)
    ensures |r| >= 1
  {
    if i < 0 then "-" + NatToString(-i) else NatToString(i)
  }

  /**
   * Python's `f"{n:02d}"`: at least two characters, padded with zeros on the
   * left; the sign counts towards the width, so `-5` prints as "-5".
   */
  function Format02(n: int): (r: string)
    ensures |r| >= 2
    ensures n >= 0 ==> AllDigits(r) && DigitsValue(r) == n
    ensures n < 0 ==> r[0] == '-'
  {
    if n < 0 then
      "-" + NatToString(-n)
    else if n < 10 then
      DigitsValueOfNatToString(n);
      DigitsValueLeadingZero(NatToString(n));
      "0" + NatToString(n)
    else
      DigitsValueOfNatToString(n);
      NatToString(n)
  }

  /** A formatted number starts with '-' exactly when it is negative. */
  lemma Format02Sign(n: int)
    ensures n < 0 <==> Format02(n)[0] == '-'
  {
    if n >= 0 {
      assert IsDigit(Format02(n)[0]);
    }
  }

  /** Different numbers never print the same two-digit field. */
  lemma Format02Injective(a: int, b: int)
    requires Format02(a) == Format02(b)
    ensures a == b
  {
    Format02Sign(a);
    Format02Sign(b);
    var f := Format02(a);
    if a < 0 {
      assert b < 0;
      assert NatToString(-a) == f[1..] == NatToString(-b);
      NatToStringInjective(-a, -b);
    } else {
      assert b >= 0;
      assert DigitsValue(f) == a && DigitsValue(f) == b;
    }
  }

  /** Different naturals never print the same. */
  lemma NatToStringInjective(a: nat, b: nat)
    requires NatToString(a) == NatToString(b)
    ensures a == b
  {
    DigitsValueOfNatToString(a);
    DigitsValueOfNatToString(b);
  }

  /** Different integers never print the same: `str` is injective. */
  lemma IntToStringInjective(a: int, b: int)
    requires IntToString(a) == IntToString(b)
    ensures a == b
  {
    assert a < 0 <==> IntToString(a)[0] == '-';
    assert b < 0 <==> IntToString(b)[0] == '-';
    if a < 0 {
      assert NatToString(-a) == IntToString(a)[1..] == IntToString(b)[1..] == NatToString(-b);
      NatToStringInjective(-a, -b);
    } else {
      NatToStringInjective(a, b);
    }
  }

  /** Length of the run of digits that starts at position `i`. */
  function DigitRunLength(s: string, i: nat): (n: nat)
    requires i <= |s|
    ensures i + n <= |s|
    decreases |s| - i
  {
    if i < |s| && IsDigit(s[i]) then 1 + DigitRunLength(s, i + 1) else 0
  }

  /** The digit run is made of digits and is maximal. */
  lemma {:induction false} DigitRunFacts(s: string, i: nat)
    requires i <= |s|
    ensures AllDigits(s[i..i + DigitRunLength(s, i)])
    ensures i + DigitRunLength(s, i) == |s| || !IsDigit(s[i + DigitRunLength(s, i)])
    decreases |s| - i
  {
    if i < |s| && IsDigit(s[i]) {
      DigitRunFacts(s, i + 1);
      assert s[i..i + DigitRunLength(s, i)] == [s[i]] + s[i + 1..i + 1 + DigitRunLength(s, i + 1)];
    }
  }

  /** Length of the run of whitespace that starts at position `i`. */
  function SpaceRunLength(s: string, i: nat): (n: nat)
    requires i <= |s|
    ensures i + n <= |s|
    decreases |s| - i
  {
    if i < |s| && IsSpace(s[i]) then 1 + SpaceRunLength(s, i + 1) else 0
  }

  /** The whitespace run is made of whitespace and is maximal. */
  lemma {:induction false} SpaceRunFacts(s: string, i: nat)
    requires i <= |s|
    ensures AllSatisfy(s[i..i + SpaceRunLength(s, i)], IsSpace)
    ensures i + SpaceRunLength(s, i) == |s| || !IsSpace(s[i + SpaceRunLength(s, i)])
    decreases |s| - i
  {
    if i < |s| && IsSpace(s[i]) {
      SpaceRunFacts(s, i + 1);
      assert s[i..i + SpaceRunLength(s, i)] == [s[i]] + s[i + 1..i + 1 + SpaceRunLength(s, i + 1)];
    }
  }

  /** Length of the run of characters of a class that starts at `i`. */
  function RunLength(s: string, i: nat, p: char -> bool): (n: nat)
    requires i <= |s|
    ensures i + n <= |s|
    decreases |s| - i
  {
    if i < |s| && p(s[i]) then 1 + RunLength(s, i + 1, p) else 0
  }

  /** A text whose characters from `i` on are all of the class has its run reach the end. */
  lemma {:induction false} RunToEnd(t: string, i: nat, p: char -> bool)
    requires i <= |t| && AllSatisfy(t[i..], p)
    ensures RunLength(t, i, p) == |t| - i
    decreases |t| - i
  {
    if i < |t| {
      assert p(t[i..][0]);
      assert t[i + 1..] == t[i..][1..];
      RunToEnd(t, i + 1, p);
    }
  }

  /** The run is made of characters of the class and is maximal. */
  lemma {:induction false} RunFacts(s: string, i: nat, p: char -> bool)
    requires i <= |s|
    ensures AllSatisfy(s[i..i + RunLength(s, i, p)], p)
    ensures i + RunLength(s, i, p) == |s| || !p(s[i + RunLength(s, i, p)])
    decreases |s| - i
  {
    if i < |s| && p(s[i]) {
      RunFacts(s, i + 1, p);
      assert s[i..i + RunLength(s, i, p)] == [s[i]] + s[i + 1..i + 1 + RunLength(s, i + 1, p)];
    }
  }

  /** ASCII lower-casing; `str.lower()` on the characters that reach it. */
  function LowerAscii(c: char): char {
    if 'A' <= c <= 'Z' then (c as int + 32) as char else c
  }

  function LowerAsciiString(s: string): (r: string)
    ensures |r| == |s| && forall k :: 0 <= k < |s| ==> r[k] == LowerAscii(s[k])
  {
    seq(|s|, k requires 0 <= k < |s| => LowerAscii(s[k]))
  }
}
