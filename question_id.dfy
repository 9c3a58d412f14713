/**
 * The deterministic question id (src/utils/build_question_id.py):
 * `<base>_<year>[_<variant>]_q<NN>_<hash8>`. The exam names are folded to
 * ASCII and normalised to `[a-z0-9_]`, the variant is compacted by a fixed
 * list of rewrites, and the question number is read from a label by an
 * ordered list of patterns.
 */
module QuestionId {
  import opened Wrappers
  import opened Strings
  import opened RegexSplit
  import opened Headers

  // ---------------------------------------------------------------------------
  // ASCII folding: `unicodedata.normalize("NFD", s).encode("ascii", "ignore")`
  // ---------------------------------------------------------------------------

  predicate IsAscii(c: char) {
    c < '\U{80}'
  }

  /**
   * One character after canonical decomposition with the non-ASCII part
   * dropped: ASCII stays, an accented Latin-1 letter keeps its base letter,
   * and anything else (`ª`, `º`, `ß`, `æ`, `ø`, other scripts) disappears.
   */
  function FoldChar(c: char): (r: string)
    ensures |r| <= 1 && AllSatisfy(r, IsAscii)
    ensures IsAscii(c) ==> r == [c]
    ensures !IsAscii(c) ==> r == [] || ('A' <= r[0] <= 'Z') || ('a' <= r[0] <= 'z')
  {
    if IsAscii(c) then [c]
    else if '\U{C0}' <= c <= '\U{C5}' then "A"       // À Á Â Ã Ä Å
    else if c == '\U{C7}' then "C"                   // Ç
    else if '\U{C8}' <= c <= '\U{CB}' then "E"       // È É Ê Ë
    else if '\U{CC}' <= c <= '\U{CF}' then "I"       // Ì Í Î Ï
    else if c == '\U{D1}' then "N"                   // Ñ
    else if '\U{D2}' <= c <= '\U{D6}' then "O"       // Ò Ó Ô Õ Ö
    else if '\U{D9}' <= c <= '\U{DC}' then "U"       // Ù Ú Û Ü
    else if c == '\U{DD}' then "Y"                   // Ý
    else if '\U{E0}' <= c <= '\U{E5}' then "a"       // à á â ã ä å
    else if c == '\U{E7}' then "c"                   // ç
    else if '\U{E8}' <= c <= '\U{EB}' then "e"       // è é ê ë
    else if '\U{EC}' <= c <= '\U{EF}' then "i"       // ì í î ï
    else if c == '\U{F1}' then "n"                   // ñ
    else if '\U{F2}' <= c <= '\U{F6}' then "o"       // ò ó ô õ ö
    else if '\U{F9}' <= c <= '\U{FC}' then "u"       // ù ú û ü
    else if c == '\U{FD}' || c == '\U{FF}' then "y"  // ý ÿ
    else []
  }

  function AsciiFold(s: string): (r: string)
    ensures |r| <= |s| && AllSatisfy(r, IsAscii)
    decreases |s|
  {
    if s == [] then [] else FoldChar(s[0]) + AsciiFold(s[1..])
  }

  /** ASCII text comes through folding unchanged. */
  lemma {:induction false} AsciiFoldOfAscii(s: string)
    requires AllSatisfy(s, IsAscii)
    ensures AsciiFold(s) == s
    decreases |s|
  {
    if s != [] {
      AsciiFoldOfAscii(s[1..]);
    }
  }

  // ---------------------------------------------------------------------------
  // Character-level rewrites
  // ---------------------------------------------------------------------------

  /** `re.sub(r"[--\-]", "_", s)`: the class holds the hyphen alone. */
  function HyphensToUnderscores(s: string): (r: string)
    ensures |r| == |s| && forall k :: 0 <= k < |s| ==> r[k] == (if s[k] == '-' then '_' else s[k])
  {
    seq(|s|, k requires 0 <= k < |s| => if s[k] == '-' then '_' else s[k])
  }

  /** `re.sub(r"[^...]", "", s)`: keep the characters of a class, in order. */
  function Keep(s: string, p: char -> bool): (r: string)
    ensures |r| <= |s| && AllSatisfy(r, p)
    decreases |s|
  {
    if s == [] then [] else (if p(s[0]) then [s[0]] else []) + Keep(s[1..], p)
  }

  lemma {:induction false} KeepAll(s: string, p: char -> bool)
    requires AllSatisfy(s, p)
    ensures Keep(s, p) == s
    decreases |s|
  {
    if s != [] {
      KeepAll(s[1..], p);
    }
  }

  /** Keeping a class distributes over concatenation. */
  lemma {:induction false} KeepConcat(a: string, b: string, p: char -> bool)
    ensures Keep(a + b, p) == Keep(a, p) + Keep(b, p)
    decreases |a|
  {
    if a == [] {
      assert a + b == b;
    } else {
      var ab := a + b;
      var h := if p(a[0]) then [a[0]] else [];
      assert ab[0] == a[0] && ab[1..] == a[1..] + b;
      KeepConcat(a[1..], b, p);
      calc {
        Keep(ab, p);
        h + Keep(a[1..] + b, p);
        h + (Keep(a[1..], p) + Keep(b, p));
        (h + Keep(a[1..], p)) + Keep(b, p);
        Keep(a, p) + Keep(b, p);
      }
    }
  }

  predicate HasDigit(s: string) {
    exists k :: 0 <= k < |s| && IsDigit(s[k])
  }

  /** A text has a digit exactly when keeping its digits leaves something. */
  lemma {:induction false} HasDigitIff(s: string)
    ensures HasDigit(s) <==> Keep(s, IsDigit) != []
    decreases |s|
  {
    if s != [] {
      HasDigitIff(s[1..]);
      if HasDigit(s) && !IsDigit(s[0]) {
        var k :| 0 <= k < |s| && IsDigit(s[k]);
        assert s[1..][k - 1] == s[k];
      }
      if HasDigit(s[1..]) {
        var k :| 0 <= k < |s[1..]| && IsDigit(s[1..][k]);
        assert s[k + 1] == s[1..][k];
      }
    }
  }

  /** Folding keeps every ASCII digit, in order, and creates none. */
  lemma {:induction false} AsciiFoldDigits(s: string)
    ensures Keep(AsciiFold(s), IsDigit) == Keep(s, IsDigit)
    decreases |s|
  {
    if s != [] {
      AsciiFoldDigits(s[1..]);
      KeepConcat(FoldChar(s[0]), AsciiFold(s[1..]), IsDigit);
    }
  }

  /** Lower-casing keeps the digits. */
  lemma {:induction false} LowerDigits(s: string)
    ensures Keep(LowerAsciiString(s), IsDigit) == Keep(s, IsDigit)
    decreases |s|
  {
    if s != [] {
      var l := LowerAsciiString(s);
      assert l[1..] == LowerAsciiString(s[1..]);
      LowerDigits(s[1..]);
    }
  }

  /** A run of whitespace holds no digit. */
  lemma {:induction false} KeepDigitsOfSpaces(s: string)
    requires AllSatisfy(s, IsSpace)
    ensures Keep(s, IsDigit) == []
    decreases |s|
  {
    if s != [] {
      KeepDigitsOfSpaces(s[1..]);
    }
  }

  /** Stripping whitespace keeps the digits. */
  lemma StripDigits(s: string)
    ensures Keep(Strip(s), IsDigit) == Keep(s, IsDigit)
  {
    var i := StripByInfix(s, IsSpace);
    var n := |Strip(s)|;
    assert s == s[..i] + Strip(s) + s[i + n..];
    KeepConcat(s[..i] + Strip(s), s[i + n..], IsDigit);
    KeepConcat(s[..i], Strip(s), IsDigit);
    KeepDigitsOfSpaces(s[..i]);
    KeepDigitsOfSpaces(s[i + n..]);
  }

  /**
   * `re.sub(r"X+", c, s)` for a one-character class `X`: each maximal run of
   * characters of the class becomes a single `c`. A run character is dropped
   * unless it ends its run.
   */
  function CollapseRuns(s: string, p: char -> bool, c: char): (r: string)
    decreases |s|
  {
    if s == [] then []
    else if p(s[0]) && |s| > 1 && p(s[1]) then CollapseRuns(s[1..], p, c)
    else if p(s[0]) then [c] + CollapseRuns(s[1..], p, c)
    else [s[0]] + CollapseRuns(s[1..], p, c)
  }

  /** The output starts where the input does: with `c` for a run, else with the same character. */
  lemma {:induction false} CollapseRunsHead(s: string, p: char -> bool, c: char)
    requires s != []
    ensures CollapseRuns(s, p, c) != []
    ensures CollapseRuns(s, p, c)[0] == (if p(s[0]) then c else s[0])
    decreases |s|
  {
    if p(s[0]) && |s| > 1 && p(s[1]) {
      CollapseRunsHead(s[1..], p, c);
    }
  }

  /** Characters outside the runs and the replacement all satisfy `q`, so the output does. */
  lemma {:induction false} CollapseRunsClass(s: string, p: char -> bool, c: char, q: char -> bool)
    requires q(c) && forall k :: 0 <= k < |s| && !p(s[k]) ==> q(s[k])
    ensures AllSatisfy(CollapseRuns(s, p, c), q)
    decreases |s|
  {
    if s != [] {
      CollapseRunsClass(s[1..], p, c, q);
      var rest := CollapseRuns(s[1..], p, c);
      if !(p(s[0]) && |s| > 1 && p(s[1])) {
        var h := if p(s[0]) then c else s[0];
        assert CollapseRuns(s, p, c) == [h] + rest;
        forall k | 0 <= k < |[h] + rest| ensures q(([h] + rest)[k]) {
          if k > 0 {
            assert ([h] + rest)[k] == rest[k - 1];
          }
        }
      }
    }
  }

  /** When `c` is itself in the class, no two neighbours of the output are both in it. */
  lemma {:induction false} CollapseRunsNoRepeat(s: string, p: char -> bool, c: char)
    requires p(c)
    ensures forall k :: 0 <= k < |CollapseRuns(s, p, c)| - 1 ==>
              !(p(CollapseRuns(s, p, c)[k]) && p(CollapseRuns(s, p, c)[k + 1]))
    decreases |s|
  {
    if s != [] {
      CollapseRunsNoRepeat(s[1..], p, c);
      var rest := CollapseRuns(s[1..], p, c);
      if !(p(s[0]) && |s| > 1 && p(s[1])) {
        var h := if p(s[0]) then c else s[0];
        var r := [h] + rest;
        assert CollapseRuns(s, p, c) == r;
        if p(h) && |rest| > 0 {
          CollapseRunsHead(s[1..], p, c);
        }
        forall k | 0 <= k < |r| - 1 ensures !(p(r[k]) && p(r[k + 1])) {
          if k > 0 {
            assert r[k] == rest[k - 1] && r[k + 1] == rest[k];
          }
        }
      }
    }
  }

  /** A text whose class characters are single `c`s is already collapsed. */
  lemma {:induction false} CollapseRunsOfCollapsed(s: string, p: char -> bool, c: char)
    requires forall k :: 0 <= k < |s| && p(s[k]) ==> s[k] == c && (k + 1 == |s| || !p(s[k + 1]))
    ensures CollapseRuns(s, p, c) == s
    decreases |s|
  {
    if s != [] {
      forall k | 0 <= k < |s[1..]| && p(s[1..][k])
        ensures s[1..][k] == c && (k + 1 == |s[1..]| || !p(s[1..][k + 1]))
      {
        assert s[1..][k] == s[k + 1];
      }
      CollapseRunsOfCollapsed(s[1..], p, c);
      assert s == [s[0]] + s[1..];
    }
  }

  // ---------------------------------------------------------------------------
  // Identifiers
  // ---------------------------------------------------------------------------

  predicate IsIdChar(c: char) {
    ('a' <= c <= 'z') || IsDigit(c) || c == '_'
  }

  predicate IsUnderscore(c: char) {
    c == '_'
  }

  /** Only `[a-z0-9_]`, no `__`, and no `_` at either end. */
  predicate IsIdentifier(s: string) {
    && AllSatisfy(s, IsIdChar)
    && (forall k :: 0 <= k < |s| - 1 ==> !(s[k] == '_' && s[k + 1] == '_'))
    && IsStrippedBy(s, IsUnderscore)
  }

  /** `re.sub(r"_+", "_", s).strip("_")`, the last two steps of both normalisations. */
  function Tidy(s: string): string {
    StripBy(CollapseRuns(s, IsUnderscore, '_'), IsUnderscore)
  }

  /** Tidying text over `[a-z0-9_]` gives an identifier. */
  lemma TidyIsIdentifier(s: string)
    requires AllSatisfy(s, IsIdChar)
    ensures IsIdentifier(Tidy(s))
  {
    var single := CollapseRuns(s, IsUnderscore, '_');
    CollapseRunsClass(s, IsUnderscore, '_', IsIdChar);
    CollapseRunsNoRepeat(s, IsUnderscore, '_');
    var i := StripByInfix(single, IsUnderscore);
    var r := StripBy(single, IsUnderscore);
    assert forall k :: 0 <= k < |r| ==> r[k] == single[i + k];
  }

  /** An identifier is left as it is. */
  lemma TidyOfIdentifier(s: string)
    requires IsIdentifier(s)
    ensures Tidy(s) == s
  {
    CollapseRunsOfCollapsed(s, IsUnderscore, '_');
  }

  // ---------------------------------------------------------------------------
  // `_normalize_text`
  // ---------------------------------------------------------------------------

  /** The characters that survive `re.sub(r"[^a-z0-9_ ]", "", s)`. */
  predicate IsKeptChar(c: char) {
    IsIdChar(c) || c == ' '
  }

  /**
   * `_normalize_text`: fold to ASCII, lower-case, hyphens to underscores, drop
   * everything outside `[a-z0-9_ ]`, whitespace runs to `_`, underscore runs
   * to one, and trim underscores.
   */
  function NormalizeText(text: string): (r: string)
    ensures text == [] ==> r == []
    ensures IsIdentifier(r)
  {
    if text == [] then []
    else
      var lowered := LowerAsciiString(AsciiFold(text));
      var kept := Keep(HyphensToUnderscores(lowered), IsKeptChar);
      var spaced := CollapseRuns(kept, IsSpace, '_');
      CollapseRunsClass(kept, IsSpace, '_', IsIdChar);
      TidyIsIdentifier(spaced);
      Tidy(spaced)
  }

  lemma IdCharFacts(c: char)
    requires IsIdChar(c)
    ensures IsAscii(c) && LowerAscii(c) == c && c != '-' && IsKeptChar(c) && !IsSpace(c)
  {
  }

  /** Every step before `Tidy` leaves an identifier as it is. */
  lemma PrepareIdentifier(s: string)
    requires AllSatisfy(s, IsIdChar)
    ensures LowerAsciiString(AsciiFold(s)) == s
    ensures HyphensToUnderscores(s) == s
    ensures Keep(s, IsKeptChar) == s
    ensures CollapseRuns(s, IsSpace, '_') == s
  {
    forall k | 0 <= k < |s| ensures IsAscii(s[k]) && LowerAscii(s[k]) == s[k] && s[k] != '-' && IsKeptChar(s[k]) && !IsSpace(s[k]) {
      IdCharFacts(s[k]);
    }
    AsciiFoldOfAscii(s);
    KeepAll(s, IsKeptChar);
    CollapseRunsOfCollapsed(s, IsSpace, '_');
  }

  /** Normalising twice is normalising once: identifiers are the fixed points. */
  lemma NormalizeIdentifier(s: string)
    requires IsIdentifier(s)
    ensures NormalizeText(s) == s
  {
    if s != [] {
      PrepareIdentifier(s);
      TidyOfIdentifier(s);
    }
  }

  lemma NormalizeIdempotent(text: string)
    ensures NormalizeText(NormalizeText(text)) == NormalizeText(text)
  {
    NormalizeIdentifier(NormalizeText(text));
  }

  // ---------------------------------------------------------------------------
  // Pattern matches with one capturing group
  // ---------------------------------------------------------------------------

  /** A match of `len` characters whose capturing group is `t[start..end]`. */
  datatype GroupMatch = GroupMatch(len: nat, start: nat, end: nat)

  predicate WellPlaced(g: GroupMatch, t: string, i: nat) {
    g.len > 0 && i + g.len <= |t| && i <= g.start <= g.end <= i + g.len
  }

  /** The digit run at `i` is exactly `k` long when `k` digits end at a non-digit or the end. */
  lemma {:induction false} DigitRunExact(t: string, i: nat, k: nat)
    requires i + k <= |t| && AllDigits(t[i..i + k]) && (i + k == |t| || !IsDigit(t[i + k]))
    ensures DigitRunLength(t, i) == k
    decreases k
  {
    if k > 0 {
      assert IsDigit(t[i..i + k][0]);
      assert t[i + 1..i + k] == t[i..i + k][1..];
      DigitRunExact(t, i + 1, k - 1);
    }
  }

  /** `\w` on normalised text, which holds only `[a-z0-9_]`. */
  predicate IsWordChar(c: char) {
    ('a' <= c <= 'z') || ('A' <= c <= 'Z') || IsDigit(c) || c == '_'
  }

  // ---------------------------------------------------------------------------
  // `_compact_variant`
  // ---------------------------------------------------------------------------

  /** The rewrites of `_compact_variant`, in the order they are applied. */
  datatype Rewrite =
    | DayRule              // (\d+)o?_dia        -> d\1
    | PhaseRule            // (\d+)a?_fase       -> f\1
    | TypeRule             // tipo_(\w+)         -> t\1
    | NumberedBookletRule  // caderno_\d+(\w+)   -> \1
    | BookletRule          // caderno_(\w+)      -> \1

  const CompactionRules: seq<Rewrite> := [DayRule, PhaseRule, TypeRule, NumberedBookletRule, BookletRule]

  /** The text the replacement puts before the group. */
  function RulePrefix(rule: Rewrite): string {
    match rule
    case DayRule => "d"
    case PhaseRule => "f"
    case TypeRule => "t"
    case _ => ""
  }

  /**
   * `(\d+)<letter>?<word>`: a digit run, then the optional letter, then the
   * literal. Fewer digits never help, since the next character would be a digit.
   */
  function OrdinalAt(t: string, i: nat, letter: char, word: string): (r: Option<GroupMatch>)
    requires i <= |t| && |word| > 0
    ensures r.Some? ==> WellPlaced(r.value, t, i)
  {
    var n := DigitRunLength(t, i);
    if n == 0 then None
    else if OccursAt(t, [letter] + word, i + n) then Some(GroupMatch(n + 1 + |word|, i, i + n))
    else if OccursAt(t, word, i + n) then Some(GroupMatch(n + |word|, i, i + n))
    else None
  }

  /** `<literal>(\w+)`: the group takes every word character after the literal. */
  function LiteralWordAt(t: string, i: nat, literal: string): (r: Option<GroupMatch>)
    requires i <= |t|
    ensures r.Some? ==> WellPlaced(r.value, t, i)
  {
    if !OccursAt(t, literal, i) then None
    else
      var w := RunLength(t, i + |literal|, IsWordChar);
      if w == 0 then None else Some(GroupMatch(|literal| + w, i + |literal|, i + |literal| + w))
  }

  /**
   * `caderno_\d+(\w+)`: the digits are greedy, but the group needs one
   * character, so when only digits follow the literal the group is the last
   * of them.
   */
  function NumberedBookletAt(t: string, i: nat): (r: Option<GroupMatch>)
    requires i <= |t|
    ensures r.Some? ==> WellPlaced(r.value, t, i)
  {
    if !OccursAt(t, "caderno_", i) then None
    else
      var d := DigitRunLength(t, i + 8);
      var j := i + 8 + d;
      var w := RunLength(t, j, IsWordChar);
      if d == 0 then None
      else if w > 0 then Some(GroupMatch(8 + d + w, j, j + w))
      else if d >= 2 then Some(GroupMatch(8 + d, j - 1, j))
      else None
  }

  /** The match of a rule at position `i`, if any. */
  function RuleAt(rule: Rewrite, t: string, i: nat): (r: Option<GroupMatch>)
    ensures r.Some? ==> WellPlaced(r.value, t, i)
  {
    if i > |t| then None
    else
      match rule
      case DayRule => OrdinalAt(t, i, 'o', "_dia")
      case PhaseRule => OrdinalAt(t, i, 'a', "_fase")
      case TypeRule => LiteralWordAt(t, i, "tipo_")
      case NumberedBookletRule => NumberedBookletAt(t, i)
      case BookletRule => LiteralWordAt(t, i, "caderno_")
  }

  function RuleMatcher(rule: Rewrite): Matcher {
    (t: string, i: nat) => match RuleAt(rule, t, i) case Some(g) => g.len case None => 0
  }

  function RuleReplacer(rule: Rewrite): Replacer {
    (t: string, i: nat) => match RuleAt(rule, t, i) case Some(g) => RulePrefix(rule) + t[g.start..g.end] case None => []
  }

  lemma RuleInBounds(rule: Rewrite)
    ensures InBounds(RuleMatcher(rule))
  {
  }

  /** A rule's replacement is a letter and a piece of the text, so it stays within `[a-z0-9_]`. */
  lemma RuleKeepsIdChars(rule: Rewrite)
    ensures KeepsClass(RuleMatcher(rule), RuleReplacer(rule), IsIdChar)
  {
    forall t: string, i: nat | i <= |t| && RuleMatcher(rule)(t, i) > 0 && AllSatisfy(t, IsIdChar)
      ensures AllSatisfy(RuleReplacer(rule)(t, i), IsIdChar)
    {
      var g := RuleAt(rule, t, i).value;
      var r := RulePrefix(rule) + t[g.start..g.end];
      forall k | 0 <= k < |r| ensures IsIdChar(r[k]) {
        if k >= |RulePrefix(rule)| {
          assert r[k] == t[g.start + k - |RulePrefix(rule)|];
        }
      }
    }
  }

  /** `v = re.sub(pattern, replacement, v)` for one rule. */
  function RewriteAll(rule: Rewrite, v: string): string {
    RuleInBounds(rule);
    Sub(RuleMatcher(rule), RuleReplacer(rule), v)
  }

  /** The loop over the rule list. */
  function ApplyRules(v: string, rules: seq<Rewrite>): string
    decreases |rules|
  {
    if rules == [] then v else ApplyRules(RewriteAll(rules[0], v), rules[1..])
  }

  lemma {:induction false} ApplyRulesKeepsIdChars(v: string, rules: seq<Rewrite>)
    requires AllSatisfy(v, IsIdChar)
    ensures AllSatisfy(ApplyRules(v, rules), IsIdChar)
    decreases |rules|
  {
    if rules != [] {
      RuleInBounds(rules[0]);
      RuleKeepsIdChars(rules[0]);
      SubKeepsClass(RuleMatcher(rules[0]), RuleReplacer(rules[0]), v, IsIdChar);
      ApplyRulesKeepsIdChars(RewriteAll(rules[0], v), rules[1..]);
    }
  }

  /**
   * `_compact_variant`: normalise, apply the rewrites in order, then collapse
   * and trim underscores; the result is an identifier.
   */
  function CompactVariant(variant: string): (r: string)
    ensures variant == [] ==> r == []
    ensures IsIdentifier(r)
  {
    if variant == [] then []
    else
      var v := ApplyRules(NormalizeText(variant), CompactionRules);
      ApplyRulesKeepsIdChars(NormalizeText(variant), CompactionRules);
      TidyIsIdentifier(v);
      Tidy(v)
  }

  /** A rule whose match covers the whole text replaces it as a whole. */
  lemma RewriteWhole(rule: Rewrite, t: string)
    requires RuleAt(rule, t, 0).Some? && RuleAt(rule, t, 0).value.len == |t|
    ensures RewriteAll(rule, t) == RulePrefix(rule) + t[RuleAt(rule, t, 0).value.start..RuleAt(rule, t, 0).value.end]
  {
    RuleInBounds(rule);
    assert RuleAt(rule, [], 0).None? by {
      assert !OccursAt([], "tipo_", 0) && !OccursAt([], "caderno_", 0);
    }
    SubOfWholeMatch(RuleMatcher(rule), RuleReplacer(rule), t);
  }

  /** A digit run, the optional letter and the literal that fill the text match it as a whole. */
  lemma OrdinalWhole(n: string, letter: char, word: string, withLetter: bool)
    requires n != [] && AllDigits(n) && |word| > 0 && word[0] == '_' && letter != '_' && !IsDigit(letter)
    ensures var t := n + (if withLetter then [letter] else []) + word;
            OrdinalAt(t, 0, letter, word) == Some(GroupMatch(|t|, 0, |n|))
  {
    var t := n + (if withLetter then [letter] else []) + word;
    assert t[..|n|] == n;
    assert t[|n|] == if withLetter then letter else '_';
    DigitRunExact(t, 0, |n|);
    if withLetter {
      assert t[|n|..|n| + 1 + |word|] == [letter] + word;
    } else {
      assert t[|n|..|n| + |word|] == word;
      assert t[|n|] != letter;
    }
  }

  /** `N_dia` and `No_dia` become `dN`. */
  lemma DayRuleRewrites(n: string, withLetter: bool)
    requires n != [] && AllDigits(n)
    ensures RewriteAll(DayRule, n + (if withLetter then "o_dia" else "_dia")) == "d" + n
  {
    OrdinalWhole(n, 'o', "_dia", withLetter);
    var t := n + (if withLetter then "o_dia" else "_dia");
    assert t == n + (if withLetter then ['o'] else []) + "_dia";
    RewriteWhole(DayRule, t);
    assert t[..|n|] == n;
  }

  /** `N_fase` and `Na_fase` become `fN`. */
  lemma PhaseRuleRewrites(n: string, withLetter: bool)
    requires n != [] && AllDigits(n)
    ensures RewriteAll(PhaseRule, n + (if withLetter then "a_fase" else "_fase")) == "f" + n
  {
    OrdinalWhole(n, 'a', "_fase", withLetter);
    var t := n + (if withLetter then "a_fase" else "_fase");
    assert t == n + (if withLetter then ['a'] else []) + "_fase";
    RewriteWhole(PhaseRule, t);
    assert t[..|n|] == n;
  }

  /** `tipo_X` becomes `tX`. */
  lemma TypeRuleRewrites(x: string)
    requires x != [] && AllSatisfy(x, IsWordChar)
    ensures RewriteAll(TypeRule, "tipo_" + x) == "t" + x
  {
    var t := "tipo_" + x;
    assert t[..5] == "tipo_" && t[5..] == x;
    RunToEnd(t, 5, IsWordChar);
    RewriteWhole(TypeRule, t);
  }

  /**
   * `caderno_NX` becomes `X` when `X` does not start with a digit, and
   * `caderno_X` becomes `X`.
   */
  lemma BookletRulesRewrite(n: string, x: string)
    requires n != [] && AllDigits(n) && x != [] && AllSatisfy(x, IsWordChar) && !IsDigit(x[0])
    ensures RewriteAll(NumberedBookletRule, "caderno_" + n + x) == x
    ensures RewriteAll(BookletRule, "caderno_" + x) == x
  {
    var t := "caderno_" + n + x;
    assert t[..8] == "caderno_" && t[8..8 + |n|] == n && t[8 + |n|..] == x;
    DigitRunExact(t, 8, |n|);
    RunToEnd(t, 8 + |n|, IsWordChar);
    RewriteWhole(NumberedBookletRule, t);
    var u := "caderno_" + x;
    assert u[..8] == "caderno_" && u[8..] == x;
    RunToEnd(u, 8, IsWordChar);
    RewriteWhole(BookletRule, u);
  }

  /**
   * With nothing but digits after `caderno_`, the group of
   * `caderno_\d+(\w+)` is the last digit alone: `caderno_12` becomes `2`,
   * while `caderno_1`, which that rule does not match, becomes `1` by the
   * next one.
   */
  lemma NumberedBookletKeepsLastDigit(n: string)
    requires |n| >= 2 && AllDigits(n)
    ensures RewriteAll(NumberedBookletRule, "caderno_" + n) == [n[|n| - 1]]
  {
    var t := "caderno_" + n;
    assert t[..8] == "caderno_" && t[8..] == n;
    DigitRunExact(t, 8, |n|);
    RewriteWhole(NumberedBookletRule, t);
  }

  // ---------------------------------------------------------------------------
  // `extract_question_number`
  // ---------------------------------------------------------------------------

  /** The label patterns, most specific first. */
  datatype NumberPattern =
    | QuestaoPattern   // quest[ao]+\s*(?:n[o.]?\s*)?(\d+)
    | QuestionPattern  // question\s*(?:no?\.?\s*)?(\d+)
    | QPattern         // q\.?\s*(\d+)
    | DigitsPattern    // (\d+)

  const NumberPatterns: seq<NumberPattern> := [QuestaoPattern, QuestionPattern, QPattern, DigitsPattern]

  /** A match whose group is a non-empty run of digits. */
  predicate DigitGroup(g: GroupMatch, t: string, i: nat) {
    WellPlaced(g, t, i) && g.start < g.end && AllDigits(t[g.start..g.end])
  }

  predicate IsAorO(c: char) {
    c == 'a' || c == 'o'
  }

  /** Past one optional character of `cs` at `k`. */
  function SkipOptional(t: string, k: nat, cs: set<char>): (k': nat)
    requires k <= |t|
    ensures k <= k' <= |t|
  {
    if k < |t| && t[k] in cs then k + 1 else k
  }

  /** The match ends with the greedy digit run at `k`, which is the group. */
  function DigitsFrom(t: string, i: nat, k: nat): (r: Option<GroupMatch>)
    requires i <= k <= |t|
    ensures r.Some? ==> DigitGroup(r.value, t, i)
    ensures r.Some? <==> DigitRunLength(t, k) > 0
  {
    var d := DigitRunLength(t, k);
    DigitRunFacts(t, k);
    if d == 0 then None else Some(GroupMatch(k + d - i, k, k + d))
  }

  /**
   * After the keyword and its whitespace at `k`: either the digits, or `n`,
   * an optional character of `after`, whitespace and the digits. Backtracking
   * cannot help: every shorter choice leaves a non-digit where the digits
   * must start.
   */
  function NumberAfterKeyword(t: string, i: nat, k: nat, after: seq<set<char>>): (r: Option<GroupMatch>)
    requires i <= k <= |t|
    ensures r.Some? ==> DigitGroup(r.value, t, i)
  {
    if DigitRunLength(t, k) > 0 then DigitsFrom(t, i, k)
    else if k < |t| && t[k] == 'n' then
      var k' := SkipAll(t, k + 1, after);
      DigitsFrom(t, i, k' + SpaceRunLength(t, k'))
    else None
  }

  /** Past one optional character of each class in turn. */
  function SkipAll(t: string, k: nat, classes: seq<set<char>>): (k': nat)
    requires k <= |t|
    ensures k <= k' <= |t|
    decreases |classes|
  {
    if classes == [] then k else SkipAll(t, SkipOptional(t, k, classes[0]), classes[1..])
  }

  /** The match of a label pattern at position `i`, if any. */
  function NumberAt(pat: NumberPattern, t: string, i: nat): (r: Option<GroupMatch>)
    ensures r.Some? ==> DigitGroup(r.value, t, i)
  {
    if i > |t| then None
    else
      match pat
      case QuestaoPattern =>
        if !OccursAt(t, "quest", i) then None
        else
          var a := RunLength(t, i + 5, IsAorO);
          if a == 0 then None
          else NumberAfterKeyword(t, i, i + 5 + a + SpaceRunLength(t, i + 5 + a), [{'o', '.'}])
      case QuestionPattern =>
        if !OccursAt(t, "question", i) then None
        else NumberAfterKeyword(t, i, i + 8 + SpaceRunLength(t, i + 8), [{'o'}, {'.'}])
      case QPattern =>
        if !(i < |t| && t[i] == 'q') then None
        else
          var k := SkipOptional(t, i + 1, {'.'});
          DigitsFrom(t, i, k + SpaceRunLength(t, k))
      case DigitsPattern => DigitsFrom(t, i, i)
  }

  function NumberMatcher(pat: NumberPattern): Matcher {
    (t: string, i: nat) => match NumberAt(pat, t, i) case Some(g) => g.len case None => 0
  }

  /** `int(match.group(1))` of the leftmost match of the first pattern that matches anywhere. */
  function FirstNumber(t: string, pats: seq<NumberPattern>): Option<nat>
    decreases |pats|
  {
    if pats == [] then None
    else
      match Search(NumberMatcher(pats[0]), t)
      case None => FirstNumber(t, pats[1..])
      case Some(i) =>
        var g := NumberAt(pats[0], t, i).value;
        Some(DigitsValue(t[g.start..g.end]))
  }

  /** Why `extract_question_number` raises `ValueError`. */
  datatype LabelError = EmptyLabel | NoNumberFound

  /** The text the patterns see: folded to ASCII, stripped and lower-cased. */
  function LabelText(raw: string): string {
    LowerAsciiString(Strip(AsciiFold(raw)))
  }

  /** `extract_question_number`: blank labels are refused before any pattern is tried. */
  function ExtractQuestionNumber(raw: string): (r: Result<nat, LabelError>)
    ensures r == Err(EmptyLabel) <==> IsBlank(raw)
  {
    if IsBlank(raw) then Err(EmptyLabel)
    else
      match FirstNumber(LabelText(raw), NumberPatterns)
      case Some(n) => Ok(n)
      case None => Err(NoNumberFound)
  }

  /** The patterns see exactly the digits of the label. */
  lemma LabelTextDigits(raw: string)
    ensures Keep(LabelText(raw), IsDigit) == Keep(raw, IsDigit)
    ensures HasDigit(LabelText(raw)) <==> HasDigit(raw)
  {
    LowerDigits(Strip(AsciiFold(raw)));
    StripDigits(AsciiFold(raw));
    AsciiFoldDigits(raw);
    HasDigitIff(LabelText(raw));
    HasDigitIff(raw);
  }

  /** Every pattern's group is made of digits, so a number is found only where there is a digit. */
  lemma {:induction false} FirstNumberNeedsDigit(t: string, pats: seq<NumberPattern>)
    requires FirstNumber(t, pats).Some?
    ensures HasDigit(t)
    decreases |pats|
  {
    match Search(NumberMatcher(pats[0]), t)
    case None => FirstNumberNeedsDigit(t, pats[1..]);
    case Some(i) =>
      var g := NumberAt(pats[0], t, i).value;
      assert IsDigit(t[g.start..g.end][0]);
  }

  /** With the bare-digits pattern in the list, a text with a digit always yields a number. */
  lemma {:induction false} FirstNumberOfDigit(t: string, pats: seq<NumberPattern>, k: nat)
    requires DigitsPattern in pats && k < |t| && IsDigit(t[k])
    ensures FirstNumber(t, pats).Some?
    decreases |pats|
  {
    if pats[0] == DigitsPattern {
      assert NumberMatcher(DigitsPattern)(t, k) > 0;
      SearchNoneIff(NumberMatcher(DigitsPattern), t);
    } else if Search(NumberMatcher(pats[0]), t).None? {
      FirstNumberOfDigit(t, pats[1..], k);
    }
  }

  /**
   * A label yields a number exactly when it contains an ASCII digit; blank
   * labels and labels without digits raise.
   */
  lemma ExtractSucceedsIffDigit(raw: string)
    ensures ExtractQuestionNumber(raw).Ok? <==> HasDigit(raw)
  {
    LabelTextDigits(raw);
    var t := LabelText(raw);
    if HasDigit(raw) {
      StripDigits(raw);
      HasDigitIff(raw);
      assert !IsBlank(raw);
      var k :| 0 <= k < |t| && IsDigit(t[k]);
      FirstNumberOfDigit(t, NumberPatterns, k);
    }
    if ExtractQuestionNumber(raw).Ok? {
      FirstNumberNeedsDigit(t, NumberPatterns);
    }
  }

  lemma {:induction false} AsciiFoldConcat(a: string, b: string)
    ensures AsciiFold(a + b) == AsciiFold(a) + AsciiFold(b)
    decreases |a|
  {
    if a == [] {
      assert a + b == b;
    } else {
      assert (a + b)[0] == a[0] && (a + b)[1..] == a[1..] + b;
      AsciiFoldConcat(a[1..], b);
    }
  }

  /** The header marker folds to plain ASCII. */
  lemma FoldMarker()
    ensures AsciiFold(Marker + " ") == "QUESTAO "
  {
    var a, b, c := "QUEST", "\U{C3}", "O ";
    assert Marker + " " == a + b + c;
    AsciiFoldConcat(a + b, c);
    AsciiFoldConcat(a, b);
    AsciiFoldOfAscii(a);
    AsciiFoldOfAscii(c);
    assert AsciiFold(b) == FoldChar(b[0]) + AsciiFold([]);
  }

  /** In the lower-cased header the first pattern matches the whole text, with the digits as its group. */
  lemma QuestaoMatchesHeader(d: string)
    requires d != [] && AllDigits(d)
    ensures NumberAt(QuestaoPattern, "questao " + d, 0) == Some(GroupMatch(8 + |d|, 8, 8 + |d|))
  {
    var t := "questao " + d;
    assert t[..5] == "quest" && t[8..] == d;
    assert t[5] == 'a' && t[6] == 'o' && t[7] == ' ';
    assert RunLength(t, 7, IsAorO) == 0;
    assert RunLength(t, 6, IsAorO) == 1;
    assert RunLength(t, 5, IsAorO) == 2;
    assert IsDigit(t[8]);
    assert SpaceRunLength(t, 7) == 1;
    DigitRunToEnd(t, 8);
  }

  lemma DigitsAreAscii(d: string)
    requires AllDigits(d)
    ensures AllSatisfy(d, IsAscii)
  {
    forall k | 0 <= k < |d| ensures IsAscii(d[k]) {
      assert IsDigit(d[k]);
    }
  }

  /** A header label folds to `QUESTAO <digits>`. */
  lemma HeaderLabelFold(d: string)
    requires AllDigits(d)
    ensures AsciiFold(Marker + " " + d) == "QUESTAO " + d
  {
    FoldMarker();
    AsciiFoldConcat(Marker + " ", d);
    DigitsAreAscii(d);
    AsciiFoldOfAscii(d);
  }

  lemma HeaderLabelLower(d: string)
    requires AllDigits(d)
    ensures LowerAsciiString("QUESTAO " + d) == "questao " + d
  {
    var folded, t := "QUESTAO " + d, "questao " + d;
    forall k | 0 <= k < |t| ensures LowerAsciiString(folded)[k] == t[k] {
      if k >= 8 {
        assert folded[k] == d[k - 8] == t[k];
      }
    }
  }

  /** A text that starts with a letter and ends with a digit has nothing to strip. */
  lemma StripLetterToDigit(s: string)
    requires |s| > 0 && 'A' <= s[0] <= 'Z' && IsDigit(s[|s| - 1])
    ensures Strip(s) == s
  {
    StripOfStripped(s);
  }

  /** What the patterns see of a header label: the marker folded and lower-cased, then the digits. */
  lemma HeaderLabelText(d: string)
    requires d != [] && AllDigits(d)
    ensures !IsBlank(Marker + " " + d)
    ensures LabelText(Marker + " " + d) == "questao " + d
  {
    var raw := Marker + " " + d;
    assert raw[|raw| - 1] == d[|d| - 1];
    StripLetterToDigit(raw);
    HeaderLabelFold(d);
    var folded := "QUESTAO " + d;
    assert folded[|folded| - 1] == d[|d| - 1];
    StripLetterToDigit(folded);
    HeaderLabelLower(d);
  }

  /** The first pattern already matches a lower-cased header, at its start. */
  lemma FirstNumberOfHeader(d: string)
    requires d != [] && AllDigits(d)
    ensures FirstNumber("questao " + d, NumberPatterns) == Some(DigitsValue(d))
  {
    var t := "questao " + d;
    var m := NumberMatcher(QuestaoPattern);
    QuestaoMatchesHeader(d);
    assert m(t, 0) == 8 + |d|;
    assert FirstMatchFrom(m, t, 0) == Some(0);
    assert t[8..8 + |d|] == d;
  }

  /** A header label `QUESTÃO <digits>` yields the value of its digits. */
  lemma ExtractFromHeaderLabel(d: string)
    requires d != [] && AllDigits(d)
    ensures ExtractQuestionNumber(Marker + " " + d) == Ok(DigitsValue(d))
  {
    HeaderLabelText(d);
    FirstNumberOfHeader(d);
  }

  /**
   * Reading the number back from a canonical header name gives the number:
   * the labels `map_questions` produces are read correctly.
   */
  lemma ExtractFromCanonicalName(n: nat)
    ensures ExtractQuestionNumber(CanonicalName(n)) == Ok(n)
  {
    ExtractFromHeaderLabel(Format02(n));
  }

  // ---------------------------------------------------------------------------
  // `build_question_id`
  // ---------------------------------------------------------------------------

  predicate IsLowerHex(c: char) {
    IsDigit(c) || ('a' <= c <= 'f')
  }

  type HexDigit = c: char | IsLowerHex(c) witness '0'

  /** `hexdigest()` of a SHA-256: 64 lower-case hexadecimal digits. */
  type HexDigest = d: seq<HexDigit> | |d| == 64 witness seq(64, k => '0')

  /** SHA-256 of the UTF-8 encoding of a string, supplied from outside the model. */
  type Hasher = string -> HexDigest

  /**
   * `re.sub(rf"^{exam_year}_?", "", v)`: the printed year at the very start,
   * with one underscore after it if there is one. The year is only digits and
   * a sign, so it is matched literally.
   */
  function StripLeadingYear(v: string, year: int): (r: string)
    ensures |r| <= |v| && r == v[|v| - |r|..]
    ensures !OccursAt(v, IntToString(year), 0) ==> r == v
  {
    var y := IntToString(year);
    if !OccursAt(v, y, 0) then v
    else if |v| > |y| && v[|y|] == '_' then v[|y| + 1..]
    else v[|y|..]
  }

  /** What is left of an identifier is an identifier: it cannot start with `_` since `__` never occurs. */
  lemma StripLeadingYearKeepsIdentifier(v: string, year: int)
    requires IsIdentifier(v)
    ensures IsIdentifier(StripLeadingYear(v, year))
  {
    var r := StripLeadingYear(v, year);
    var y := IntToString(year);
    if r != v && r != [] {
      assert r[0] == v[|v| - |r|];
      assert forall k :: 0 <= k < |r| ==> r[k] == v[|v| - |r| + k];
    }
  }

  /** Prefixing the year, with or without an underscore, is undone by the strip. */
  lemma StripLeadingYearOfPrefixed(year: int, w: string)
    ensures StripLeadingYear(IntToString(year) + "_" + w, year) == w
    ensures w == [] || w[0] != '_' ==> StripLeadingYear(IntToString(year) + w, year) == w
  {
    var y := IntToString(year);
    assert (y + "_" + w)[..|y|] == y;
    assert (y + "_" + w)[|y| + 1..] == w;
    assert (y + w)[..|y|] == y;
    assert (y + w)[|y|..] == w;
  }

  /** `exam_name_sigle or exam_name_base`: an empty acronym counts as missing. */
  function ChosenBase(base: string, acronym: Option<string>): (r: string)
    ensures acronym.Some? && acronym.value != [] ==> r == acronym.value
    ensures acronym.None? || acronym.value == [] ==> r == base
  {
    if acronym.Some? && acronym.value != [] then acronym.value else base
  }

  /** The variant as it appears in the id: compacted, then without the leading year. */
  function VariantPart(variant: string, year: int): (r: string)
    ensures IsIdentifier(r)
  {
    StripLeadingYearKeepsIdentifier(CompactVariant(variant), year);
    StripLeadingYear(CompactVariant(variant), year)
  }

  /** `"_".join(components)`: base, year, the variant when non-empty, and `q<NN>`. */
  function ReadableId(b: string, year: int, v: string, number: int): string {
    Join([b, IntToString(year)] + (if v != [] then [v] else []) + ["q" + Format02(number)], "_")
  }

  /** `f"{base_norm}_{exam_year}_{variant_norm}_{question_number}"`, which is hashed. */
  function HashInput(b: string, year: int, v: string, number: int): string {
    b + "_" + IntToString(year) + "_" + v + "_" + IntToString(number)
  }

  /** `build_question_id`: the readable id, then the first 8 hex digits of the hash. */
  function BuildQuestionId(base: string, acronym: Option<string>, variant: string, year: int, number: int,
                           sha: Hasher): (id: string)
  {
    var b := NormalizeText(ChosenBase(base, acronym));
    var v := VariantPart(variant, year);
    ReadableId(b, year, v, number) + "_" + sha(HashInput(b, year, v, number))[..8]
  }

  /** The short hash of an id. */
  function ShortHash(base: string, acronym: Option<string>, variant: string, year: int, number: int,
                     sha: Hasher): (h: string)
    ensures |h| == 8 && AllSatisfy(h, IsLowerHex)
  {
    var b := NormalizeText(ChosenBase(base, acronym));
    var v := VariantPart(variant, year);
    sha(HashInput(b, year, v, number))[..8]
  }

  /** The fields before the number, written out: `<base>_<year>[_<variant>]_q`. */
  function IdHead(b: string, year: int, v: string): string {
    if v == [] then b + "_" + IntToString(year) + "_q"
    else b + "_" + IntToString(year) + "_" + v + "_q"
  }

  /** Joining the components gives that layout: the variant and its underscore go together. */
  lemma ReadableIdLayout(b: string, year: int, v: string, number: int)
    ensures ReadableId(b, year, v, number) == IdHead(b, year, v) + Format02(number)
  {
    var y := IntToString(year);
    var n := Format02(number);
    JoinFields(b, y, v, "q" + n);
    if v == [] {
      assert b + "_" + y + "_" + ("q" + n) == b + "_" + y + "_q" + n;
    } else {
      assert b + "_" + y + "_" + v + "_" + ("q" + n) == b + "_" + y + "_" + v + "_q" + n;
    }
  }

  /** The join of the id's components, for any last field. */
  lemma JoinFields(b: string, y: string, v: string, q: string)
    ensures Join([b, y] + (if v != [] then [v] else []) + [q], "_")
            == (if v == [] then b + "_" + y + "_" else b + "_" + y + "_" + v + "_") + q
  {
    if v == [] {
      assert [b, y] + [] + [q] == [b, y, q];
      assert Join([y, q], "_") == y + "_" + q;
    } else {
      assert [b, y] + [v] + [q] == [b, y, v, q];
      assert Join([v, q], "_") == v + "_" + q;
      assert Join([y, v, q], "_") == y + "_" + (v + "_" + q);
    }
  }

  lemma Regroup(a: string, b: string, c: string, d: string)
    ensures a + b + c + d == a + (b + c + d)
  {
  }

  /** The layout `<base>_<year>[_<variant>]_q<NN>_<hash8>`. */
  lemma QuestionIdLayout(base: string, acronym: Option<string>, variant: string, year: int, number: int,
                         sha: Hasher)
    ensures BuildQuestionId(base, acronym, variant, year, number, sha)
            == IdHead(NormalizeText(ChosenBase(base, acronym)), year, VariantPart(variant, year))
               + (Format02(number) + "_" + ShortHash(base, acronym, variant, year, number, sha))
  {
    var b := NormalizeText(ChosenBase(base, acronym));
    var v := VariantPart(variant, year);
    var f := Format02(number);
    var h := ShortHash(base, acronym, variant, year, number, sha);
    assert BuildQuestionId(base, acronym, variant, year, number, sha) == ReadableId(b, year, v, number) + "_" + h;
    ReadableIdLayout(b, year, v, number);
    Regroup(IdHead(b, year, v), f, "_", h);
  }

  /** The id ends with an underscore and eight lower-case hex digits of the hash of its fields. */
  lemma QuestionIdHashSuffix(base: string, acronym: Option<string>, variant: string, year: int, number: int,
                             sha: Hasher)
    ensures var id := BuildQuestionId(base, acronym, variant, year, number, sha);
            |id| > 9 && id[|id| - 9] == '_'
            && id[|id| - 8..] == ShortHash(base, acronym, variant, year, number, sha)
  {
    QuestionIdLayout(base, acronym, variant, year, number, sha);
  }

  /** No field printed by `Format02` contains an underscore. */
  lemma Format02NoUnderscore(n: int)
    ensures forall k :: 0 <= k < |Format02(n)| ==> Format02(n)[k] != '_'
  {
    if n < 0 {
      var f := Format02(n);
      assert f == "-" + NatToString(-n);
      forall k | 1 <= k < |f| ensures f[k] != '_' {
        assert f[k] == NatToString(-n)[k - 1];
      }
    }
  }

  /** Two texts that start with underscore-free fields split at the same place. */
  lemma SameFirstField(a1: string, a2: string, s1: string, s2: string)
    requires forall k :: 0 <= k < |a1| ==> a1[k] != '_'
    requires forall k :: 0 <= k < |a2| ==> a2[k] != '_'
    requires a1 + "_" + s1 == a2 + "_" + s2
    ensures a1 == a2
  {
    var t := a1 + "_" + s1;
    assert forall k :: 0 <= k < |a1| ==> t[k] == a1[k];
    assert forall k :: 0 <= k < |a2| ==> t[k] == a2[k];
    assert t[|a1|] == '_' && t[|a2|] == '_';
    assert |a1| == |a2|;
    assert a1 == t[..|a1|] == a2;
  }

  /** Within one exam, different question numbers always give different ids. */
  lemma QuestionIdsDistinguishNumbers(base: string, acronym: Option<string>, variant: string, year: int,
                                      n1: int, n2: int, sha: Hasher)
    requires n1 != n2
    ensures BuildQuestionId(base, acronym, variant, year, n1, sha)
            != BuildQuestionId(base, acronym, variant, year, n2, sha)
  {
    var p := IdHead(NormalizeText(ChosenBase(base, acronym)), year, VariantPart(variant, year));
    var x1 := Format02(n1) + "_" + ShortHash(base, acronym, variant, year, n1, sha);
    var x2 := Format02(n2) + "_" + ShortHash(base, acronym, variant, year, n2, sha);
    QuestionIdLayout(base, acronym, variant, year, n1, sha);
    QuestionIdLayout(base, acronym, variant, year, n2, sha);
    Format02NoUnderscore(n1);
    Format02NoUnderscore(n2);
    if p + x1 == p + x2 {
      assert x1 == (p + x1)[|p|..] == (p + x2)[|p|..] == x2;
      SameFirstField(Format02(n1), Format02(n2), ShortHash(base, acronym, variant, year, n1, sha),
                     ShortHash(base, acronym, variant, year, n2, sha));
      Format02Injective(n1, n2);
    }
  }

  /** A non-empty acronym replaces the full exam name, which then plays no part. */
  lemma AcronymTakesPrecedence(base1: string, base2: string, acronym: string, variant: string, year: int,
                               number: int, sha: Hasher)
    requires acronym != []
    ensures BuildQuestionId(base1, Some(acronym), variant, year, number, sha)
            == BuildQuestionId(base2, Some(acronym), variant, year, number, sha)
            == BuildQuestionId(acronym, None, variant, year, number, sha)
  {
  }

  lemma IdCharsConcat(a: string, b: string)
    requires AllSatisfy(a, IsIdChar) && AllSatisfy(b, IsIdChar)
    ensures AllSatisfy(a + b, IsIdChar)
  {
    forall k | 0 <= k < |a + b| ensures IsIdChar((a + b)[k]) {
      if k >= |a| {
        assert (a + b)[k] == b[k - |a|];
      }
    }
  }

  /** With a non-negative year the fields before the number use only `[a-z0-9_]`. */
  lemma IdHeadIsSlug(b: string, year: int, v: string)
    requires AllSatisfy(b, IsIdChar) && AllSatisfy(v, IsIdChar) && year >= 0
    ensures AllSatisfy(IdHead(b, year, v), IsIdChar)
  {
    var y := IntToString(year);
    assert AllSatisfy(y, IsIdChar);
    IdCharsConcat(b, "_");
    IdCharsConcat(b + "_", y);
    if v == [] {
      IdCharsConcat(b + "_" + y, "_q");
    } else {
      IdCharsConcat(b + "_" + y, "_");
      IdCharsConcat(b + "_" + y + "_", v);
      IdCharsConcat(b + "_" + y + "_" + v, "_q");
    }
  }

  /** For a non-negative year and number the id uses only `[a-z0-9_]`. */
  lemma QuestionIdIsSlug(base: string, acronym: Option<string>, variant: string, year: int, number: int,
                         sha: Hasher)
    requires year >= 0 && number >= 0
    ensures AllSatisfy(BuildQuestionId(base, acronym, variant, year, number, sha), IsIdChar)
  {
    QuestionIdLayout(base, acronym, variant, year, number, sha);
    var h := ShortHash(base, acronym, variant, year, number, sha);
    IdHeadIsSlug(NormalizeText(ChosenBase(base, acronym)), year, VariantPart(variant, year));
    IdCharsConcat(Format02(number), "_");
    IdCharsConcat(Format02(number) + "_", h);
    IdCharsConcat(IdHead(NormalizeText(ChosenBase(base, acronym)), year, VariantPart(variant, year)),
                  Format02(number) + "_" + h);
  }
}
