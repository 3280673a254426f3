/** `applyPatternConversions` of the LaTeX converter
    (MathSymbolConverter.kt:202-245): six regular-expression rewrites, each
    written as a scanner that tries the pattern at every position from the
    left and, after a match, resumes behind it (what `Regex.replace` does),
    then the delimiter and brace replacements. */
module Patterns {
  import opened Options
  import opened Strings

  /** A match at the start of the remaining text: how many characters it
      consumes and what replaces them. */
  datatype Match = Match(length: nat, replacement: string)

  /** A matcher consumes at least one character and no more than there are,
      so the scanner always moves on (none of the six patterns can match the
      empty string). */
  ghost predicate Advances(at: string -> Option<Match>)
  {
    forall t :: at(t).Some? ==> 0 < at(t).value.length <= |t|
  }

  /** `Regex.replace(input, transform)`: leftmost matches, not overlapping. */
  function Rewrite(s: string, at: string -> Option<Match>): string
    requires Advances(at)
    decreases |s|
  {
    if s == [] then []
    else match at(s)
      case Some(m) => m.replacement + Rewrite(s[m.length..], at)
      case None => [s[0]] + Rewrite(s[1..], at)
  }

  /** A text with no match anywhere comes out unchanged. */
  lemma {:induction false} RewriteNoMatch(s: string, at: string -> Option<Match>)
    requires Advances(at)
    requires forall i :: 0 <= i < |s| ==> at(s[i..]).None?
    ensures Rewrite(s, at) == s
    decreases |s|
  {
    if s != [] {
      assert s[0..] == s;
      assert forall i :: 0 <= i < |s[1..]| ==> s[1..][i..] == s[i + 1..];
      RewriteNoMatch(s[1..], at);
    }
  }

  /** The end of the run of characters satisfying `p` that starts at `from`. */
  function RunEnd(t: string, from: nat, p: char -> bool): (e: nat)
    requires from <= |t|
    ensures from <= e <= |t|
    ensures forall k :: from <= k < e ==> p(t[k])
    ensures e < |t| ==> !p(t[e])
    decreases |t| - from
  {
    if from == |t| || !p(t[from]) then from else RunEnd(t, from + 1, p)
  }

  /** A run of `p` ends at `e`: nothing outside `p` before it, and the text
      ends or leaves `p` there. */
  predicate RunTo(t: string, from: nat, e: nat, p: char -> bool)
    requires from <= e <= |t|
  {
    (forall k :: from <= k < e ==> p(t[k])) && (e == |t| || !p(t[e]))
  }

  lemma RunEndUnique(t: string, from: nat, e: nat, p: char -> bool)
    requires from <= e <= |t| && RunTo(t, from, e, p)
    ensures RunEnd(t, from, p) == e
  {
  }

  predicate IsNotBar(c: char) { c != '|' }

  // -------------------------------------------------------- fractions

  /** The fraction text both fraction rules produce (lines 207 and 212). */
  function Frac(numerator: string, denominator: string): string
  {
    "\\frac{" + numerator + "}{" + denominator + "}"
  }

  /** `(\d+)/(\d+)` at the start of `t` (line 206). The greedy `\d+` can only
      stop right before the `/`, and the second one runs to the end of the
      digits. */
  function DigitFractionAt(t: string): (m: Option<Match>)
    ensures m.Some? ==> 0 < m.value.length <= |t| && '/' in t
  {
    var e := RunEnd(t, 0, IsAsciiDigit);
    if 0 < e && e + 1 < |t| && t[e] == '/' && IsAsciiDigit(t[e + 1]) then
      var f := RunEnd(t, e + 1, IsAsciiDigit);
      Some(Match(f, Frac(t[..e], t[e + 1..f])))
    else None
  }

  /** `([a-zA-Z]\w*)/([a-zA-Z]\w*)` at the start of `t` (line 211). */
  function WordFractionAt(t: string): (m: Option<Match>)
    ensures m.Some? ==> 0 < m.value.length <= |t| && '/' in t
  {
    if |t| == 0 || !IsAsciiLetter(t[0]) then None
    else
      var e := RunEnd(t, 1, IsWordChar);
      if e + 1 < |t| && t[e] == '/' && IsAsciiLetter(t[e + 1]) then
        var f := RunEnd(t, e + 2, IsWordChar);
        Some(Match(f, Frac(t[..e], t[e + 1..f])))
      else None
  }

  /** Line 206: digit fractions. */
  function DigitFractions(s: string): string
  {
    Rewrite(s, DigitFractionAt)
  }

  /** Line 211: identifier fractions. */
  function WordFractions(s: string): string
  {
    Rewrite(s, WordFractionAt)
  }

  // ------------------------------------------------ exponents, subscripts

  /** `(\w)\^(\w+)` (line 216) for `mark == '^'`, `(\w)_(\w+)` (line 221)
      for `mark == '_'`, at the start of `t`: the word character, the mark
      and the whole run of word characters after it. */
  function ScriptAt(mark: char, t: string): (m: Option<Match>)
    ensures m.Some? ==> 0 < m.value.length <= |t| && mark in t
  {
    if |t| >= 3 && IsWordChar(t[0]) && t[1] == mark && IsWordChar(t[2]) then
      var f := RunEnd(t, 2, IsWordChar);
      Some(Match(f, [t[0], mark, '{'] + t[2..f] + "}"))
    else None
  }

  /** Line 216: exponents. */
  function Superscripts(s: string): string
  {
    Rewrite(s, t => ScriptAt('^', t))
  }

  /** Line 221: subscripts. */
  function Subscripts(s: string): string
  {
    Rewrite(s, t => ScriptAt('_', t))
  }

  // ------------------------------------------- square roots, absolute value

  const Sqrt := "\\sqrt"
  const Left := "\\left"
  const Right := "\\right"

  /** `\\sqrt\s*(\w+)` at the start of `t` (line 226). */
  function SqrtAt(t: string): (m: Option<Match>)
    ensures m.Some? ==> 0 < m.value.length <= |t| && OccursAt(Sqrt, t, 0)
  {
    if |t| < |Sqrt| || t[..|Sqrt|] != Sqrt then None
    else
      var g := RunEnd(t, |Sqrt|, IsPatternSpace);
      if g < |t| && IsWordChar(t[g]) then
        var f := RunEnd(t, g, IsWordChar);
        Some(Match(f, Sqrt + "{" + t[g..f] + "}"))
      else None
  }

  /** `\|([^|]+)\|` at the start of `t` (line 231). */
  function AbsoluteValueAt(t: string): (m: Option<Match>)
    ensures m.Some? ==> 0 < m.value.length <= |t| && '|' in t
  {
    if |t| == 0 || t[0] != '|' then None
    else
      var e := RunEnd(t, 1, IsNotBar);
      if 1 < e < |t| then Some(Match(e + 1, Left + "|" + t[1..e] + Right + "|"))
      else None
  }

  /** Line 226: square roots with arguments. */
  function SqrtArguments(s: string): string
  {
    Rewrite(s, SqrtAt)
  }

  /** Line 231: absolute values. */
  function AbsoluteValues(s: string): string
  {
    Rewrite(s, AbsoluteValueAt)
  }

  // ------------------------------------------------- delimiters and braces

  /** Lines 236-237. */
  function Delimiters(s: string): string
  {
    var a := ReplaceAll(s, "(", Left + "(");
    var b := ReplaceAll(a, ")", Right + ")");
    var c := ReplaceAll(b, "[", Left + "[");
    ReplaceAll(c, "]", Right + "]")
  }

  /** The test of line 240: the text holds no `\frac`, `^{` or `_{`. */
  predicate BracesArePlain(s: string)
  {
    !Occurs("\\frac", s) && !Occurs("^{", s) && !Occurs("_{", s)
  }

  /** Lines 240-242. */
  function Braces(s: string): string
  {
    if BracesArePlain(s) then ReplaceAll(ReplaceAll(s, "{", "\\left\\{"), "}", "\\right\\}")
    else s
  }

  /** `applyPatternConversions` (lines 202-245). */
  function PatternConversions(text: string): string
  {
    var fractions := WordFractions(DigitFractions(text));
    var scripts := Subscripts(Superscripts(fractions));
    var grouped := AbsoluteValues(SqrtArguments(scripts));
    Braces(Delimiters(grouped))
  }

  // ------------------------------------------------------------- lemmas

  /** The four delimiters are each preceded by their sizing command. */
  ghost predicate Delimited(s: string)
  {
    && Guarded(s, '(', Left) && Guarded(s, ')', Right)
    && Guarded(s, '[', Left) && Guarded(s, ']', Right)
  }

  /** After lines 236-237 every `(` and `[` follows `\left` and every `)`
      and `]` follows `\right`, whatever the text held before. */
  lemma DelimitersGuarded(s: string)
    ensures Delimited(Delimiters(s))
  {
    var a := ReplaceAll(s, "(", Left + "(");
    var b := ReplaceAll(a, ")", Right + ")");
    var c := ReplaceAll(b, "[", Left + "[");
    var d := ReplaceAll(c, "]", Right + "]");
    assert "(" == ['('] && ")" == [')'] && "[" == ['['] && "]" == [']'];
    ReplaceGuards(s, '(', Left);
    ReplaceGuards(a, ')', Right);
    ReplaceKeepsGuard(a, '(', Left, ')', Right + ")");
    ReplaceGuards(b, '[', Left);
    ReplaceKeepsGuard(b, '(', Left, '[', Left + "[");
    ReplaceKeepsGuard(b, ')', Right, '[', Left + "[");
    ReplaceGuards(c, ']', Right);
    ReplaceKeepsGuard(c, '(', Left, ']', Right + "]");
    ReplaceKeepsGuard(c, ')', Right, ']', Right + "]");
    ReplaceKeepsGuard(c, '[', Left, ']', Right + "]");
  }

  /** Lines 240-242: when the text holds none of `\frac`, `^{`, `_{`, every
      brace ends up escaped and sized; otherwise the text is left alone. */
  lemma BracesEscaped(s: string)
    ensures BracesArePlain(s) ==>
      Guarded(Braces(s), '{', Left + "\\") && Guarded(Braces(s), '}', Right + "\\")
    ensures !BracesArePlain(s) ==> Braces(s) == s
  {
    if BracesArePlain(s) {
      var a := ReplaceAll(s, "{", "\\left\\{");
      assert "{" == ['{'] && "}" == ['}'];
      assert "\\left\\{" == Left + "\\" + "{";
      assert "\\right\\}" == Right + "\\" + "}";
      ReplaceGuards(s, '{', Left + "\\");
      ReplaceGuards(a, '}', Right + "\\");
      ReplaceKeepsGuard(a, '{', Left + "\\", '}', "\\right\\}");
    }
  }

  /** Escaping braces keeps the delimiters sized. */
  lemma BracesKeepDelimiters(s: string)
    requires Delimited(s)
    ensures Delimited(Braces(s))
  {
    if BracesArePlain(s) {
      var a := ReplaceAll(s, "{", "\\left\\{");
      assert "{" == ['{'] && "}" == ['}'];
      ReplaceKeepsGuard(s, '(', Left, '{', "\\left\\{");
      ReplaceKeepsGuard(s, ')', Right, '{', "\\left\\{");
      ReplaceKeepsGuard(s, '[', Left, '{', "\\left\\{");
      ReplaceKeepsGuard(s, ']', Right, '{', "\\left\\{");
      ReplaceKeepsGuard(a, '(', Left, '}', "\\right\\}");
      ReplaceKeepsGuard(a, ')', Right, '}', "\\right\\}");
      ReplaceKeepsGuard(a, '[', Left, '}', "\\right\\}");
      ReplaceKeepsGuard(a, ']', Right, '}', "\\right\\}");
    }
  }

  /** The converted body has every delimiter sized, and its braces are
      escaped exactly when the text reaching line 240 passes that test. */
  lemma PatternConversionsDelimited(text: string)
    ensures Delimited(PatternConversions(text))
    ensures var reaching := Delimiters(AbsoluteValues(SqrtArguments(Subscripts(Superscripts(WordFractions(DigitFractions(text)))))));
      && (BracesArePlain(reaching) ==>
            Guarded(PatternConversions(text), '{', Left + "\\") && Guarded(PatternConversions(text), '}', Right + "\\"))
      && (!BracesArePlain(reaching) ==> PatternConversions(text) == reaching)
  {
    var reaching := Delimiters(AbsoluteValues(SqrtArguments(Subscripts(Superscripts(WordFractions(DigitFractions(text)))))));
    DelimitersGuarded(AbsoluteValues(SqrtArguments(Subscripts(Superscripts(WordFractions(DigitFractions(text)))))));
    BracesKeepDelimiters(reaching);
    BracesEscaped(reaching);
  }

  // --------------------------------------------- the matchers as patterns

  /** `t` starts with a first group of `lead` then `body` characters ending
      at `e`, a `/`, and a `lead` character: a prefix of `t` matches
      `(L B*)/(L B*)` (`L = B = \d` at line 206, `L = [a-zA-Z]` and
      `B = \w` at line 211). */
  ghost predicate FractionPrefix(t: string, e: nat, lead: char -> bool, body: char -> bool)
  {
    && 0 < e && e + 1 < |t|
    && lead(t[0]) && (forall k :: 1 <= k < e ==> body(t[k]))
    && t[e] == '/' && lead(t[e + 1])
  }

  /** Line 206 matches at the start of `t` exactly when `t` starts with
      digits, `/` and a digit. */
  lemma DigitFractionAtMeaning(t: string)
    ensures DigitFractionAt(t).Some? <==> exists e :: FractionPrefix(t, e, IsAsciiDigit, IsAsciiDigit)
  {
    if DigitFractionAt(t).Some? {
      var e := RunEnd(t, 0, IsAsciiDigit);
      assert FractionPrefix(t, e, IsAsciiDigit, IsAsciiDigit);
    }
    if e :| FractionPrefix(t, e, IsAsciiDigit, IsAsciiDigit) {
      RunEndUnique(t, 0, e, IsAsciiDigit);
    }
  }

  /** Both digit runs are taken whole. */
  lemma DigitFractionAtGreedy(t: string, e: nat, f: nat)
    requires FractionPrefix(t, e, IsAsciiDigit, IsAsciiDigit)
    requires e + 2 <= f <= |t| && RunTo(t, e + 2, f, IsAsciiDigit)
    ensures DigitFractionAt(t) == Some(Match(f, Frac(t[..e], t[e + 1..f])))
  {
    RunEndUnique(t, 0, e, IsAsciiDigit);
    RunEndUnique(t, e + 1, f, IsAsciiDigit);
  }

  /** Line 211 matches at the start of `t` exactly when `t` starts with a
      letter, word characters, `/` and a letter. */
  lemma WordFractionAtMeaning(t: string)
    ensures WordFractionAt(t).Some? <==> exists e :: FractionPrefix(t, e, IsAsciiLetter, IsWordChar)
  {
    if WordFractionAt(t).Some? {
      var e := RunEnd(t, 1, IsWordChar);
      assert FractionPrefix(t, e, IsAsciiLetter, IsWordChar);
    }
    if e :| FractionPrefix(t, e, IsAsciiLetter, IsWordChar) {
      RunEndUnique(t, 1, e, IsWordChar);
    }
  }

  /** Both identifiers are taken whole. */
  lemma WordFractionAtGreedy(t: string, e: nat, f: nat)
    requires FractionPrefix(t, e, IsAsciiLetter, IsWordChar)
    requires e + 2 <= f <= |t| && RunTo(t, e + 2, f, IsWordChar)
    ensures WordFractionAt(t) == Some(Match(f, Frac(t[..e], t[e + 1..f])))
  {
    RunEndUnique(t, 1, e, IsWordChar);
    RunEndUnique(t, e + 2, f, IsWordChar);
  }

  /** Lines 216 and 221 match at the start of `t` exactly when a word
      character, the mark and a word character open it, and the match takes
      the whole run of word characters after the mark into the braces. */
  lemma ScriptAtMeaning(mark: char, t: string, f: nat)
    requires 3 <= f <= |t|
    ensures ScriptAt(mark, t).Some? <==> IsWordChar(t[0]) && t[1] == mark && IsWordChar(t[2])
    ensures IsWordChar(t[0]) && t[1] == mark && RunTo(t, 2, f, IsWordChar) ==>
      ScriptAt(mark, t) == Some(Match(f, [t[0], mark, '{'] + t[2..f] + "}"))
  {
    if IsWordChar(t[0]) && t[1] == mark && RunTo(t, 2, f, IsWordChar) {
      RunEndUnique(t, 2, f, IsWordChar);
    }
  }

  /** `t` starts with `\sqrt`, blanks up to `g`, and a word character. */
  ghost predicate SqrtPrefix(t: string, g: nat)
  {
    && |Sqrt| <= g < |t| && t[..|Sqrt|] == Sqrt
    && (forall k :: |Sqrt| <= k < g ==> IsPatternSpace(t[k]))
    && IsWordChar(t[g])
  }

  /** Line 226 matches at the start of `t` exactly when `\sqrt`, blanks
      and a word character open it. */
  lemma SqrtAtMeaning(t: string)
    ensures SqrtAt(t).Some? <==> exists g :: SqrtPrefix(t, g)
  {
    if SqrtAt(t).Some? {
      assert SqrtPrefix(t, RunEnd(t, |Sqrt|, IsPatternSpace));
    }
    if g :| SqrtPrefix(t, g) {
      RunEndUnique(t, |Sqrt|, g, IsPatternSpace);
    }
  }

  /** The blanks are dropped and the whole word run goes into the braces. */
  lemma SqrtAtGreedy(t: string, g: nat, f: nat)
    requires SqrtPrefix(t, g) && g < f <= |t| && RunTo(t, g, f, IsWordChar)
    ensures SqrtAt(t) == Some(Match(f, Sqrt + "{" + t[g..f] + "}"))
  {
    RunEndUnique(t, |Sqrt|, g, IsPatternSpace);
    RunEndUnique(t, g, f, IsWordChar);
  }

  /** `t` opens with `|`, and the next `|` is at `e`, at least two on. */
  ghost predicate BarPair(t: string, e: nat)
  {
    && 1 < e < |t| && t[0] == '|' && t[e] == '|'
    && forall k :: 1 <= k < e ==> t[k] != '|'
  }

  /** Line 231 matches at the start of `t` exactly when a `|` opens it and
      the next `|` is not right behind it; the match then runs to that next
      `|`. */
  lemma AbsoluteValueAtMeaning(t: string)
    ensures AbsoluteValueAt(t).Some? <==> exists e :: BarPair(t, e)
    ensures forall e: nat :: BarPair(t, e) ==>
      AbsoluteValueAt(t) == Some(Match(e + 1, Left + "|" + t[1..e] + Right + "|"))
  {
    if AbsoluteValueAt(t).Some? {
      assert BarPair(t, RunEnd(t, 1, IsNotBar));
    }
    forall e: nat | BarPair(t, e)
      ensures AbsoluteValueAt(t) == Some(Match(e + 1, Left + "|" + t[1..e] + Right + "|"))
    {
      RunEndUnique(t, 1, e, IsNotBar);
    }
  }

  /** The characters the six patterns and the delimiter rules look for. */
  const Markup := "/^_|()[]{}"

  /** Text none of the conversions touches: none of the characters above,
      and no `\sqrt`. */
  predicate IsPlain(t: string)
  {
    (forall k :: 0 <= k < |t| ==> t[k] !in Markup) && !Occurs(Sqrt, t)
  }

  lemma PlainSuffix(t: string, i: nat)
    requires IsPlain(t) && i <= |t|
    ensures forall c :: c in Markup ==> c !in t[i..]
    ensures !OccursAt(Sqrt, t[i..], 0)
  {
    if OccursAt(Sqrt, t[i..], 0) {
      assert t[i..][0..|Sqrt|] == t[i..i + |Sqrt|];
      assert OccursAt(Sqrt, t, i);
    }
  }

  lemma PlainNoMatch(t: string, at: string -> Option<Match>)
    requires IsPlain(t) && Advances(at)
    requires forall u :: at(u).Some? ==> (exists c :: c in Markup && c in u) || OccursAt(Sqrt, u, 0)
    ensures Rewrite(t, at) == t
  {
    forall i | 0 <= i < |t|
      ensures at(t[i..]).None?
    {
      PlainSuffix(t, i);
    }
    RewriteNoMatch(t, at);
  }

  lemma PlainDelimiters(t: string)
    requires IsPlain(t)
    ensures Delimiters(t) == t && Braces(t) == t
  {
    assert "(" == ['('] && ")" == [')'] && "[" == ['['] && "]" == [']'] && "{" == ['{'] && "}" == ['}'];
    OccursChar('(', t);
    OccursChar(')', t);
    OccursChar('[', t);
    OccursChar(']', t);
    OccursChar('{', t);
    OccursChar('}', t);
    ReplaceAllNoOccurrence(t, "(", Left + "(");
    ReplaceAllNoOccurrence(t, ")", Right + ")");
    ReplaceAllNoOccurrence(t, "[", Left + "[");
    ReplaceAllNoOccurrence(t, "]", Right + "]");
    ReplaceAllNoOccurrence(t, "{", "\\left\\{");
    ReplaceAllNoOccurrence(t, "}", "\\right\\}");
  }

  /** Plain text goes through the conversions unchanged. */
  lemma PlainUnchanged(t: string)
    requires IsPlain(t)
    ensures PatternConversions(t) == t
  {
    assert '/' in Markup && '^' in Markup && '_' in Markup && '|' in Markup;
    PlainNoMatch(t, DigitFractionAt);
    PlainNoMatch(t, WordFractionAt);
    PlainNoMatch(t, u => ScriptAt('^', u));
    PlainNoMatch(t, u => ScriptAt('_', u));
    PlainNoMatch(t, SqrtAt);
    PlainNoMatch(t, AbsoluteValueAt);
    PlainDelimiters(t);
  }
}
