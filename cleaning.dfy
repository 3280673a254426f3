/** `cleanExpression` of the step validator (MathValidator.kt:261-279):
    strip `$`, map the Unicode operators to ASCII, drop spaces, trim, then
    insert the implicit multiplications the evaluator's grammar needs. */
module Cleaning {
  import opened Strings

  /** The four implicit-multiplication rewrites, each a `Regex.replace`
      that puts `*` between two adjacent characters:
      `2x` (digit, letter), `)(`, `2(` (digit, open) and `)2` (close, digit). */
  datatype Juxtaposition = DigitLetter | CloseOpen | DigitOpen | CloseDigit

  /** The character class of the rule's first capture. */
  predicate LeftClass(j: Juxtaposition, c: char)
  {
    match j
    case DigitLetter => IsAsciiDigit(c)
    case DigitOpen => IsAsciiDigit(c)
    case CloseOpen => c == ')'
    case CloseDigit => c == ')'
  }

  /** The character class of the rule's second capture. */
  predicate RightClass(j: Juxtaposition, c: char)
  {
    match j
    case DigitLetter => IsAsciiLetter(c)
    case DigitOpen => c == '('
    case CloseOpen => c == '('
    case CloseDigit => IsAsciiDigit(c)
  }

  predicate Joins(j: Juxtaposition, a: char, b: char)
  {
    LeftClass(j, a) && RightClass(j, b)
  }

  /** No two adjacent characters of `s` form a match of rule `j`. */
  predicate Separated(s: string, j: Juxtaposition)
  {
    forall i :: 0 <= i < |s| - 1 ==> !Joins(j, s[i], s[i + 1])
  }

  /** One `Regex(...).replace(...)` of rule `j`: matches are found left to
      right and a match consumes both of its characters. */
  function InsertStar(s: string, j: Juxtaposition): string
    decreases |s|
  {
    if |s| < 2 then s
    else if Joins(j, s[0], s[1]) then [s[0], '*', s[1]] + InsertStar(s[2..], j)
    else [s[0]] + InsertStar(s[1..], j)
  }

  /** Lines 262-270: the literal replacements and the trim. */
  function StripSymbols(expr: string): (r: string)
    ensures Trimmed(r)
  {
    Trim(
      ReplaceAll(
        ReplaceAll(
          ReplaceAll(
            ReplaceAll(
              ReplaceAll(
                ReplaceAll(
                  ReplaceAll(expr, "$", ""),
                  "\U{00D7}", "*"),   // multiplication sign
                "\U{00F7}", "/"),     // division sign
              "\U{2212}", "-"),       // minus sign
            "\U{2013}", "-"),         // en dash
          "\U{2014}", "-"),           // em dash
        " ", ""))
  }

  /** Lines 273-276: the four implicit-multiplication rewrites, in order. */
  function ImplicitProducts(s: string): string
  {
    InsertStar(InsertStar(InsertStar(InsertStar(s, DigitLetter), CloseOpen), DigitOpen), CloseDigit)
  }

  /** `cleanExpression`. */
  function CleanExpression(expr: string): string
  {
    ImplicitProducts(StripSymbols(expr))
  }

  /** The characters `cleanExpression` removes or rewrites. */
  const Removed: set<char> := {' ', '$', '\U{00D7}', '\U{00F7}', '\U{2212}', '\U{2013}', '\U{2014}'}

  // ------------------------------------------------------------ InsertStar

  lemma {:induction false} InsertStarChars(s: string, j: Juxtaposition, c: char)
    requires c in InsertStar(s, j)
    ensures c in s || c == '*'
    decreases |s|
  {
    if |s| >= 2 {
      if Joins(j, s[0], s[1]) {
        if c !in [s[0], '*', s[1]] {
          InsertStarChars(s[2..], j, c);
        }
      } else if c != s[0] {
        InsertStarChars(s[1..], j, c);
      }
    }
  }

  /** A `*` is only ever inserted between two characters: both ends stay. */
  lemma {:induction false} InsertStarEnds(s: string, j: Juxtaposition)
    requires s != []
    ensures var r := InsertStar(s, j); r != [] && r[0] == s[0] && r[|r| - 1] == s[|s| - 1]
    decreases |s|
  {
    if |s| >= 2 {
      if Joins(j, s[0], s[1]) {
        if |s| > 2 {
          InsertStarEnds(s[2..], j);
        }
      } else {
        InsertStarEnds(s[1..], j);
      }
    }
  }

  /** After rule `j` has run, no match of `j` is left: the two classes of
      every rule are disjoint, so a consumed right character never starts a
      new match. */
  lemma {:induction false} InsertStarSeparates(s: string, j: Juxtaposition)
    ensures Separated(InsertStar(s, j), j)
    decreases |s|
  {
    if |s| >= 2 {
      var r := InsertStar(s, j);
      if Joins(j, s[0], s[1]) {
        var rest := InsertStar(s[2..], j);
        InsertStarSeparates(s[2..], j);
        if |s| > 2 {
          InsertStarEnds(s[2..], j);
        }
        assert r == [s[0], '*', s[1]] + rest;
        forall i | 0 <= i < |r| - 1 ensures !Joins(j, r[i], r[i + 1]) {
          if i >= 3 {
            assert r[i] == rest[i - 3] && r[i + 1] == rest[i - 2];
          }
        }
      } else {
        var rest := InsertStar(s[1..], j);
        InsertStarSeparates(s[1..], j);
        InsertStarEnds(s[1..], j);
        assert r == [s[0]] + rest;
        forall i | 0 <= i < |r| - 1 ensures !Joins(j, r[i], r[i + 1]) {
          if i >= 1 {
            assert r[i] == rest[i - 1] && r[i + 1] == rest[i];
          }
        }
      }
    }
  }

  /** Rule `j` only inserts `*`, which belongs to no class, so it never
      creates a match of another rule `k`. */
  lemma {:induction false} InsertStarKeepsSeparated(s: string, j: Juxtaposition, k: Juxtaposition)
    requires Separated(s, k)
    ensures Separated(InsertStar(s, j), k)
    decreases |s|
  {
    if |s| >= 2 {
      var r := InsertStar(s, j);
      if Joins(j, s[0], s[1]) {
        var rest := InsertStar(s[2..], j);
        assert Separated(s[2..], k) by {
          forall i | 0 <= i < |s[2..]| - 1 ensures !Joins(k, s[2..][i], s[2..][i + 1]) {
            assert s[2..][i] == s[i + 2] && s[2..][i + 1] == s[i + 3];
          }
        }
        InsertStarKeepsSeparated(s[2..], j, k);
        if |s| > 2 {
          InsertStarEnds(s[2..], j);
        }
        assert r == [s[0], '*', s[1]] + rest;
        forall i | 0 <= i < |r| - 1 ensures !Joins(k, r[i], r[i + 1]) {
          if i >= 3 {
            assert r[i] == rest[i - 3] && r[i + 1] == rest[i - 2];
          } else if i == 2 {
            assert r[i] == s[1] && r[i + 1] == s[2];
          }
        }
      } else {
        var rest := InsertStar(s[1..], j);
        assert Separated(s[1..], k) by {
          forall i | 0 <= i < |s[1..]| - 1 ensures !Joins(k, s[1..][i], s[1..][i + 1]) {
            assert s[1..][i] == s[i + 1] && s[1..][i + 1] == s[i + 2];
          }
        }
        InsertStarKeepsSeparated(s[1..], j, k);
        InsertStarEnds(s[1..], j);
        assert r == [s[0]] + rest;
        forall i | 0 <= i < |r| - 1 ensures !Joins(k, r[i], r[i + 1]) {
          if i >= 1 {
            assert r[i] == rest[i - 1] && r[i + 1] == rest[i];
          }
        }
      }
    }
  }

  /** With no match present, the rewrite changes nothing. */
  lemma {:induction false} InsertStarNoOp(s: string, j: Juxtaposition)
    requires Separated(s, j)
    ensures InsertStar(s, j) == s
    decreases |s|
  {
    if |s| >= 2 {
      assert !Joins(j, s[0], s[1]);
      assert Separated(s[1..], j) by {
        forall i | 0 <= i < |s[1..]| - 1 ensures !Joins(j, s[1..][i], s[1..][i + 1]) {
          assert s[1..][i] == s[i + 1] && s[1..][i + 1] == s[i + 2];
        }
      }
      InsertStarNoOp(s[1..], j);
    }
  }

  // ------------------------------------------------------- cleanExpression

  /** One literal replacement step: the characters `done` already absent
      stay absent and `d` itself is erased, when the replacement holds none
      of them. */
  lemma ReplaceStep(s: string, d: char, rep: string, done: set<char>)
    requires forall c :: c in done ==> c !in s
    requires forall c :: c in done + {d} ==> c !in rep
    ensures forall c :: c in done + {d} ==> c !in ReplaceAll(s, [d], rep)
  {
    ReplaceAllErases(s, d, rep);
    forall c | c in done ensures c !in ReplaceAll(s, [d], rep) {
      ReplaceAllKeepsAbsent(s, [d], rep, c);
    }
  }

  lemma StripSymbolsRemoves(expr: string)
    ensures forall c :: c in Removed ==> c !in StripSymbols(expr)
  {
    var s1 := ReplaceAll(expr, "$", "");
    var s2 := ReplaceAll(s1, "\U{00D7}", "*");
    var s3 := ReplaceAll(s2, "\U{00F7}", "/");
    var s4 := ReplaceAll(s3, "\U{2212}", "-");
    var s5 := ReplaceAll(s4, "\U{2013}", "-");
    var s6 := ReplaceAll(s5, "\U{2014}", "-");
    var s7 := ReplaceAll(s6, " ", "");
    ReplaceStep(expr, '$', "", {});
    ReplaceStep(s1, '\U{00D7}', "*", {'$'});
    ReplaceStep(s2, '\U{00F7}', "/", {'$', '\U{00D7}'});
    ReplaceStep(s3, '\U{2212}', "-", {'$', '\U{00D7}', '\U{00F7}'});
    ReplaceStep(s4, '\U{2013}', "-", {'$', '\U{00D7}', '\U{00F7}', '\U{2212}'});
    ReplaceStep(s5, '\U{2014}', "-", {'$', '\U{00D7}', '\U{00F7}', '\U{2212}', '\U{2013}'});
    ReplaceStep(s6, ' ', "", Removed - {' '});
    assert Removed - {' '} + {' '} == Removed;
    forall c | c in Removed ensures c !in StripSymbols(expr) {
      TrimKeepsAbsent(s7, c);
    }
  }

  /** `*` is the only character the implicit products add. */
  lemma ImplicitProductsChars(s: string, c: char)
    requires c in ImplicitProducts(s)
    ensures c in s || c == '*'
  {
    var s1 := InsertStar(s, DigitLetter);
    var s2 := InsertStar(s1, CloseOpen);
    var s3 := InsertStar(s2, DigitOpen);
    InsertStarChars(s3, CloseDigit, c);
    if c in s3 {
      InsertStarChars(s2, DigitOpen, c);
      if c in s2 {
        InsertStarChars(s1, CloseOpen, c);
        if c in s1 {
          InsertStarChars(s, DigitLetter, c);
        }
      }
    }
  }

  lemma ImplicitProductsKeepsRemoved(s0: string)
    requires forall c :: c in Removed ==> c !in s0
    ensures forall c :: c in Removed ==> c !in ImplicitProducts(s0)
  {
    forall c | c in Removed ensures c !in ImplicitProducts(s0) {
      if c in ImplicitProducts(s0) {
        ImplicitProductsChars(s0, c);
      }
    }
  }

  /** The output of `cleanExpression` holds none of `$`, space or the
      Unicode operators. */
  lemma CleanRemovesSymbols(expr: string)
    ensures forall c :: c in Removed ==> c !in CleanExpression(expr)
  {
    StripSymbolsRemoves(expr);
    ImplicitProductsKeepsRemoved(StripSymbols(expr));
  }

  /** In the output of `cleanExpression` no digit is followed by a letter or
      `(`, and no `)` by `(` or a digit. */
  lemma CleanSeparates(expr: string)
    ensures forall j :: Separated(CleanExpression(expr), j)
  {
    ImplicitProductsSeparates(StripSymbols(expr));
  }

  lemma ImplicitProductsSeparates(s0: string)
    ensures forall j :: Separated(ImplicitProducts(s0), j)
  {
    var s1 := InsertStar(s0, DigitLetter);
    var s2 := InsertStar(s1, CloseOpen);
    var s3 := InsertStar(s2, DigitOpen);
    var s4 := InsertStar(s3, CloseDigit);
    InsertStarSeparates(s0, DigitLetter);
    InsertStarKeepsSeparated(s1, CloseOpen, DigitLetter);
    InsertStarKeepsSeparated(s2, DigitOpen, DigitLetter);
    InsertStarKeepsSeparated(s3, CloseDigit, DigitLetter);
    InsertStarSeparates(s1, CloseOpen);
    InsertStarKeepsSeparated(s2, DigitOpen, CloseOpen);
    InsertStarKeepsSeparated(s3, CloseDigit, CloseOpen);
    InsertStarSeparates(s2, DigitOpen);
    InsertStarKeepsSeparated(s3, CloseDigit, DigitOpen);
    InsertStarSeparates(s3, CloseDigit);
    forall j ensures Separated(s4, j) {
      match j
      case DigitLetter =>
      case CloseOpen =>
      case DigitOpen =>
      case CloseDigit =>
    }
  }

  /** The output of `cleanExpression` neither starts nor ends with whitespace. */
  lemma CleanTrimmed(expr: string)
    ensures Trimmed(CleanExpression(expr))
  {
    ImplicitProductsTrimmed(StripSymbols(expr));
  }

  lemma ImplicitProductsTrimmed(s0: string)
    requires Trimmed(s0)
    ensures Trimmed(ImplicitProducts(s0))
  {
    ImplicitProductsEnds(s0);
  }

  lemma ImplicitProductsEnds(s0: string)
    ensures var r := ImplicitProducts(s0); s0 != [] ==> r != [] && r[0] == s0[0] && r[|r| - 1] == s0[|s0| - 1]
  {
    var s1 := InsertStar(s0, DigitLetter);
    var s2 := InsertStar(s1, CloseOpen);
    var s3 := InsertStar(s2, DigitOpen);
    if s0 != [] {
      InsertStarEnds(s0, DigitLetter);
      InsertStarEnds(s1, CloseOpen);
      InsertStarEnds(s2, DigitOpen);
      InsertStarEnds(s3, CloseDigit);
    }
  }

  /** Text free of the removed characters, with no whitespace at either end
      and no implicit product left, is a fixed point of `cleanExpression`. */
  lemma CleanFixedPoint(t: string)
    requires forall c :: c in Removed ==> c !in t
    requires Trimmed(t)
    requires forall j :: Separated(t, j)
    ensures CleanExpression(t) == t
  {
    StripSymbolsNoOp(t);
    InsertStarNoOp(t, DigitLetter);
    InsertStarNoOp(t, CloseOpen);
    InsertStarNoOp(t, DigitOpen);
    InsertStarNoOp(t, CloseDigit);
  }

  lemma StripSymbolsNoOp(t: string)
    requires forall c :: c in Removed ==> c !in t
    requires Trimmed(t)
    ensures StripSymbols(t) == t
  {
    OccursChar('$', t);
    ReplaceAllNoOccurrence(t, "$", "");
    OccursChar('\U{00D7}', t);
    ReplaceAllNoOccurrence(t, "\U{00D7}", "*");
    OccursChar('\U{00F7}', t);
    ReplaceAllNoOccurrence(t, "\U{00F7}", "/");
    OccursChar('\U{2212}', t);
    ReplaceAllNoOccurrence(t, "\U{2212}", "-");
    OccursChar('\U{2013}', t);
    ReplaceAllNoOccurrence(t, "\U{2013}", "-");
    OccursChar('\U{2014}', t);
    ReplaceAllNoOccurrence(t, "\U{2014}", "-");
    OccursChar(' ', t);
    ReplaceAllNoOccurrence(t, " ", "");
    TrimNoOp(t);
  }

  /** `cleanExpression` is idempotent, so cleaning an already cleaned
      expression again (as `evaluateExpression` does) changes nothing. */
  lemma CleanIdempotent(expr: string)
    ensures CleanExpression(CleanExpression(expr)) == CleanExpression(expr)
  {
    CleanRemovesSymbols(expr);
    CleanSeparates(expr);
    CleanTrimmed(expr);
    CleanFixedPoint(CleanExpression(expr));
  }
}
