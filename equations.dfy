/** `extractEquation` and `splitEquation` of the step validator
    (MathValidator.kt:242-256): find the first `lhs = rhs` in a step and cut
    it into its two trimmed sides. */
module Equations {
  import opened Options
  import opened Strings

  /** The two sides of an equation (MathValidator.kt:298). */
  datatype EquationSides = EquationSides(first: string, second: string)

  /** Where a match of `([^=]+)\s*=\s*([^=]+)` starting at `i` ends, if one
      does. The first group cannot cross an `=`, so it runs up to the first
      `=` after `i` (the `\s*` before `=` then matches nothing); the second
      group needs at least one non-`=` character after that `=` and, being
      greedy, runs on to the next `=` or the end. */
  function MatchEquationAt(s: string, i: nat): Option<nat>
    requires i < |s|
  {
    if s[i] == '=' then None
    else
      var e := NextIndex(s, '=', i);
      if e + 1 >= |s| || s[e + 1] == '=' then None
      else Some(NextIndex(s, '=', e + 1))
  }

  /** `Regex.find`: the match with the leftmost start at or after `from`. */
  function FindEquation(s: string, from: nat): Option<string>
    requires from <= |s|
    decreases |s| - from
  {
    if from == |s| then None
    else match MatchEquationAt(s, from)
      case Some(k) => Some(s[from..k])
      case None => FindEquation(s, from + 1)
  }

  /** `extractEquation`: the first match, trimmed; `None` for `null`. */
  function ExtractEquation(step: string): Option<string>
  {
    match FindEquation(step, 0)
    case None => None
    case Some(m) => Some(Trim(m))
  }

  /** `splitEquation`: `None` unless `split("=")` gives exactly two pieces. */
  function SplitEquation(equation: string): Option<EquationSides>
  {
    var parts := Split(equation, '=');
    if |parts| != 2 then None else Some(EquationSides(Trim(parts[0]), Trim(parts[1])))
  }

  // ------------------------------------------------------------- lemmas

  /** An `=` at `e` with a character other than `=` on each side of it. */
  predicate LoneEquals(s: string, e: int)
  {
    0 < e && e + 1 < |s| && s[e] == '=' && s[e - 1] != '=' && s[e + 1] != '='
  }

  lemma MatchEquationAtSome(s: string, i: nat)
    requires i < |s|
    ensures MatchEquationAt(s, i).Some? ==> LoneEquals(s, NextIndex(s, '=', i))
    ensures MatchEquationAt(s, i).Some? ==>
      var e := NextIndex(s, '=', i);
      var k := MatchEquationAt(s, i).value;
      e < k <= |s| && Count(s[i..k], '=') == 1
  {
    if MatchEquationAt(s, i).Some? {
      var e := NextIndex(s, '=', i);
      var k := NextIndex(s, '=', e + 1);
      assert e - 1 >= i;
      var m := s[i..k];
      assert m == s[i..e] + [s[e]] + s[e + 1..k];
      CountAppend(s[i..e] + [s[e]], s[e + 1..k], '=');
      CountAppend(s[i..e], [s[e]], '=');
      CountAbsent(s[i..e], '=');
      CountAbsent(s[e + 1..k], '=');
    }
  }

  lemma {:induction false} FindEquationSome(s: string, from: nat)
    requires from <= |s|
    ensures FindEquation(s, from).Some? <==> exists i :: from <= i < |s| && MatchEquationAt(s, i).Some?
    ensures FindEquation(s, from).Some? ==> Count(FindEquation(s, from).value, '=') == 1
    decreases |s| - from
  {
    if from < |s| {
      MatchEquationAtSome(s, from);
      FindEquationSome(s, from + 1);
      if MatchEquationAt(s, from).None? {
        assert forall i :: from <= i < |s| && MatchEquationAt(s, i).Some? ==> from + 1 <= i;
      }
    }
  }

  /** A step yields an equation exactly when it holds an `=` with a
      character other than `=` immediately on each side. */
  lemma ExtractEquationFound(step: string)
    ensures ExtractEquation(step).Some? <==> exists e :: LoneEquals(step, e)
  {
    if ExtractEquation(step).Some? {
      ExtractedHasLoneEquals(step);
    }
    if e :| LoneEquals(step, e) {
      LoneEqualsExtracts(step, e);
    }
  }

  lemma ExtractedHasLoneEquals(step: string)
    requires ExtractEquation(step).Some?
    ensures exists e :: LoneEquals(step, e)
  {
    FindEquationSome(step, 0);
    var i :| 0 <= i < |step| && MatchEquationAt(step, i).Some?;
    MatchEquationAtSome(step, i);
  }

  lemma LoneEqualsExtracts(step: string, e: int)
    requires LoneEquals(step, e)
    ensures ExtractEquation(step).Some?
  {
    assert NextIndex(step, '=', e - 1) == e;
    assert MatchEquationAt(step, e - 1).Some?;
    FindEquationSome(step, 0);
  }

  /** The extracted equation holds exactly one `=`. */
  lemma ExtractEquationOneEquals(step: string)
    requires ExtractEquation(step).Some?
    ensures Count(ExtractEquation(step).value, '=') == 1
  {
    FindEquationSome(step, 0);
    TrimKeepsCount(FindEquation(step, 0).value, '=');
  }

  /** `splitEquation` succeeds exactly when the text has one `=`, and then
      gives the trimmed text on either side of it. */
  lemma SplitEquationSpec(equation: string)
    ensures SplitEquation(equation).Some? <==> Count(equation, '=') == 1
    ensures SplitEquation(equation).Some? ==>
      exists i :: 0 <= i < |equation| && equation[i] == '=' &&
        SplitEquation(equation).value == EquationSides(Trim(equation[..i]), Trim(equation[i + 1..]))
  {
    var parts := Split(equation, '=');
    if |parts| == 2 {
      SplitTwo(equation, '=');
      var i := |parts[0]|;
      assert equation[i] == '=' && SplitEquation(equation).value == EquationSides(Trim(equation[..i]), Trim(equation[i + 1..]));
    }
  }

  /** Whatever `extractEquation` returns, `splitEquation` accepts, so the
      "Invalid equation format" verdict of `validateStep` cannot occur. */
  lemma ExtractedEquationSplits(step: string)
    requires ExtractEquation(step).Some?
    ensures SplitEquation(ExtractEquation(step).value).Some?
  {
    ExtractEquationOneEquals(step);
    SplitEquationSpec(ExtractEquation(step).value);
  }
}
