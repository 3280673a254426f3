/** The hint selector (HintGenerator.kt): lookup tables over the error type,
    the problem type, the step number and the time spent stuck, and two text
    classifiers that recognise a finished answer.

    `List.random()` is not modelled as randomness: the element it picks is
    the one at `roll % size`, `roll` being supplied by the caller. */
module HintGenerator {
  import opened Options
  import opened Strings
  import opened Models

  /** HintGenerator.kt:6-16. */
  datatype ProblemType =
    | Linear
    | Quadratic
    | Rational
    | Radical
    | Trigonometric
    | Logarithmic
    | Arithmetic
    | System
    | Inequality

  /** The element `List.random()` returns when the random source says `roll`. */
  function Pick(list: seq<string>, roll: nat): (r: string)
    requires |list| > 0
    ensures r in list
  {
    list[roll % |list|]
  }

  /** A roll below the size of the list picks the element at that index,
      so every element can come out. */
  lemma PickAt(list: seq<string>, roll: nat)
    requires roll < |list|
    ensures Pick(list, roll) == list[roll]
  {
  }

  // ------------------------------------------------------ getErrorTypeHint

  const SignErrorHints: seq<string> := [
    "Check your signs - did you apply the operation to both sides?",
    "When moving terms across the equals sign, remember to change the sign",
    "Double-check the signs in your last step",
    "Be careful with negative signs when distributing"
  ]

  const CalculationErrorHints: seq<string> := [
    "Double-check your arithmetic",
    "Try calculating that step again carefully",
    "The numbers don't quite add up - review your calculation",
    "Take another look at that calculation"
  ]

  const IncompleteStepHints: seq<string> := [
    "This step looks incomplete - what's the next operation?",
    "Keep going - you're not quite finished with this step",
    "What should you do with both sides of the equation?"
  ]

  /** The problem types with hints of their own in lines 66-82. */
  const TailoredTypes: set<ProblemType> := {Linear, Quadratic, Rational, Radical}

  const GenericMistakeHint := "This step doesn't follow algebraically from the previous one"
  const GenericApproachHint := "Think about a different approach to solve this"

  /** Lines 66-72. */
  function AlgebraicMistakeHint(problemType: ProblemType): string
  {
    match problemType
    case Linear => "Remember: whatever you do to one side, do to the other"
    case Quadratic => "Did you factor correctly? Check each term"
    case Rational => "When working with fractions, find a common denominator"
    case Radical => "Remember to square both sides to eliminate the square root"
    case _ => GenericMistakeHint
  }

  /** Lines 76-82. */
  function WrongApproachHint(problemType: ProblemType): string
  {
    match problemType
    case Linear => "Try isolating the variable by moving constants to one side"
    case Quadratic => "Have you considered factoring or using the quadratic formula?"
    case Rational => "Consider multiplying both sides by the denominator"
    case Radical => "Try isolating the radical first before squaring"
    case _ => GenericApproachHint
  }

  /** The phrase list an error type picks from at random, if any. */
  function RandomHints(errorType: ErrorType): seq<string>
  {
    match errorType
    case SignError => SignErrorHints
    case CalculationError => CalculationErrorHints
    case IncompleteStep => IncompleteStepHints
    case _ => []
  }

  /** `getErrorTypeHint` (lines 45-93). `currentWork` is unused by the
      source too. */
  function ErrorTypeHint(errorType: ErrorType, problemType: ProblemType, currentWork: string, roll: nat): (r: Option<string>)
    ensures r.Some?
    ensures |RandomHints(errorType)| > 0 ==> r.value in RandomHints(errorType)
  {
    match errorType
    case SignError => Some(Pick(RandomHints(errorType), roll))
    case CalculationError => Some(Pick(RandomHints(errorType), roll))
    case AlgebraicMistake => Some(AlgebraicMistakeHint(problemType))
    case WrongApproach => Some(WrongApproachHint(problemType))
    case IncompleteStep => Some(Pick(RandomHints(errorType), roll))
  }

  // ---------------------------------------------------- getProblemTypeHint

  /** `getProblemTypeHint` (lines 98-159). */
  function ProblemTypeHint(problemType: ProblemType, stepNumber: int): string
  {
    match problemType
    case Linear =>
      if stepNumber == 0 then "Start by moving all variable terms to one side"
      else if stepNumber == 1 then "Now combine like terms"
      else if stepNumber == 2 then "What operation will isolate the variable?"
      else "You're close - simplify your answer"
    case Quadratic =>
      if stepNumber == 0 then "First, get everything on one side so it equals zero"
      else if stepNumber == 1 then "Can this expression be factored?"
      else if stepNumber == 2 then "Set each factor equal to zero"
      else "Solve for each possible value of x"
    case Rational =>
      if stepNumber == 0 then "Consider multiplying both sides by the common denominator"
      else if stepNumber == 1 then "Now you have an equation without fractions - solve it"
      else "Don't forget to check your answer in the original equation"
    case Radical =>
      if stepNumber == 0 then "First, isolate the square root on one side"
      else if stepNumber == 1 then "Now square both sides to eliminate the radical"
      else if stepNumber == 2 then "Solve the resulting equation"
      else "Remember to check for extraneous solutions"
    case Trigonometric => "Use trigonometric identities or inverse functions as needed"
    case Logarithmic =>
      if stepNumber == 0 then "Consider using logarithm properties to simplify"
      else if stepNumber == 1 then "Can you convert to exponential form?"
      else "Solve for the variable"
    case Arithmetic => "Perform the operations step by step"
    case System => "Use substitution or elimination to solve the system"
    case Inequality => "Remember: multiplying by a negative flips the inequality sign"
  }

  /** How many step numbers a problem type tells apart: steps at or beyond
      the last one all share the last text. */
  function StepTexts(problemType: ProblemType): nat
  {
    match problemType
    case Linear => 4
    case Quadratic => 4
    case Radical => 4
    case Rational => 3
    case Logarithmic => 3
    case _ => 1
  }

  /** Which text of its table a step number gets: numbers below
      `StepTexts - 1` have texts of their own, every other number (negative
      ones included, which the source's `else` also catches) shares the
      last text. */
  function StepBucket(problemType: ProblemType, stepNumber: int): nat
  {
    var n := StepTexts(problemType);
    if 0 <= stepNumber < n - 1 then stepNumber else n - 1
  }

  /** Step numbers in the same bucket get the same text; the last four
      problem types of the table ignore the step number altogether. */
  lemma ProblemTypeHintSharedSteps(problemType: ProblemType, step1: int, step2: int)
    ensures StepBucket(problemType, step1) == StepBucket(problemType, step2) ==>
      ProblemTypeHint(problemType, step1) == ProblemTypeHint(problemType, step2)
    ensures StepTexts(problemType) == 1 ==> ProblemTypeHint(problemType, step1) == ProblemTypeHint(problemType, step2)
  {
  }

  /** LINEAR, QUADRATIC and RADICAL have four different texts. */
  lemma ProblemTypeHintFourTexts(problemType: ProblemType)
    requires StepTexts(problemType) == 4
    ensures forall a, b :: 0 <= a < b < 4 ==> ProblemTypeHint(problemType, a) != ProblemTypeHint(problemType, b)
  {
  }

  /** RATIONAL and LOGARITHMIC have three different texts. */
  lemma ProblemTypeHintThreeTexts(problemType: ProblemType)
    requires StepTexts(problemType) == 3
    ensures forall a, b :: 0 <= a < b < 3 ==> ProblemTypeHint(problemType, a) != ProblemTypeHint(problemType, b)
  {
  }

  // ----------------------------------------------------------- generateHint

  /** `generateHint` (lines 26-40). */
  function GenerateHint(errorType: Option<ErrorType>, problemType: ProblemType, currentWork: string, stepNumber: int, roll: nat): string
  {
    if errorType.Some? then
      match ErrorTypeHint(errorType.value, problemType, currentWork, roll)
      case Some(errorHint) => errorHint
      case None => ProblemTypeHint(problemType, stepNumber)
    else
      ProblemTypeHint(problemType, stepNumber)
  }

  /** The three randomised error types give one of their fixed phrases,
      and every phrase of the list can come out. */
  lemma GenerateHintRandomMembers(errorType: ErrorType, problemType: ProblemType, currentWork: string, stepNumber: int)
    requires errorType == SignError || errorType == CalculationError || errorType == IncompleteStep
    ensures forall roll: nat :: GenerateHint(Some(errorType), problemType, currentWork, stepNumber, roll) in RandomHints(errorType)
    ensures forall h :: h in RandomHints(errorType) ==>
      exists roll: nat :: GenerateHint(Some(errorType), problemType, currentWork, stepNumber, roll) == h
  {
    var hints := RandomHints(errorType);
    forall h | h in hints
      ensures exists roll: nat :: GenerateHint(Some(errorType), problemType, currentWork, stepNumber, roll) == h
    {
      var i :| 0 <= i < |hints| && hints[i] == h;
      PickAt(hints, i);
      assert ErrorTypeHint(errorType, problemType, currentWork, i) == Some(Pick(hints, i));
      assert GenerateHint(Some(errorType), problemType, currentWork, stepNumber, i) == Pick(hints, i);
    }
  }

  /** Lines 66-72: the fallback text goes exactly to the untailored types. */
  lemma AlgebraicMistakeHintFallback(problemType: ProblemType)
    ensures AlgebraicMistakeHint(problemType) == GenericMistakeHint <==> problemType !in TailoredTypes
  {
  }

  /** Lines 76-82: the fallback text goes exactly to the untailored types. */
  lemma WrongApproachHintFallback(problemType: ProblemType)
    ensures WrongApproachHint(problemType) == GenericApproachHint <==> problemType !in TailoredTypes
  {
  }

  /** `ALGEBRAIC_MISTAKE` ignores the random source and the step: its
      text is the problem type's entry of lines 66-72. */
  lemma GenerateHintAlgebraicMistake(problemType: ProblemType, currentWork: string, stepNumber: int, roll: nat)
    ensures GenerateHint(Some(AlgebraicMistake), problemType, currentWork, stepNumber, roll) == AlgebraicMistakeHint(problemType)
  {
    assert ErrorTypeHint(AlgebraicMistake, problemType, currentWork, roll) == Some(AlgebraicMistakeHint(problemType));
  }

  /** `WRONG_APPROACH` ignores the random source and the step: its text is
      the problem type's entry of lines 76-82. */
  lemma GenerateHintWrongApproach(problemType: ProblemType, currentWork: string, stepNumber: int, roll: nat)
    ensures GenerateHint(Some(WrongApproach), problemType, currentWork, stepNumber, roll) == WrongApproachHint(problemType)
  {
    assert ErrorTypeHint(WrongApproach, problemType, currentWork, roll) == Some(WrongApproachHint(problemType));
  }

  /** With an error type the step table is never consulted and the text
      does not depend on the student's work; without one, the hint is the
      step table's. */
  lemma GenerateHintSources(errorType: Option<ErrorType>, problemType: ProblemType, work1: string, work2: string, step1: int, step2: int, roll: nat)
    ensures errorType.Some? ==>
      GenerateHint(errorType, problemType, work1, step1, roll) == GenerateHint(errorType, problemType, work2, step2, roll)
    ensures errorType.None? ==>
      GenerateHint(errorType, problemType, work1, step1, roll) == ProblemTypeHint(problemType, step1)
  {
  }

  // ---------------------------------------------------- isLikelySolution

  /** A character of the class `[0-9.]`. */
  predicate IsNumeralChar(c: char) { IsAsciiDigit(c) || c == '.' }

  /** `[0-9.]+`. */
  predicate IsNumeral(s: string)
  {
    |s| > 0 && forall k :: 0 <= k < |s| ==> IsNumeralChar(s[k])
  }

  /** `[-]?[0-9.]+`. */
  predicate IsSignedNumeral(s: string)
  {
    IsNumeral(s) || (|s| > 0 && s[0] == '-' && IsNumeral(s[1..]))
  }

  /** The two patterns of lines 218-219, as languages: `x=` then a signed
      numeral, or two signed numerals around a `/`. */
  ghost predicate IsSolutionShape(c: string)
  {
    && |c| >= 2 && c[0] == 'x' && c[1] == '='
    && (|| IsSignedNumeral(c[2..])
        || exists k :: 2 <= k < |c| && c[k] == '/' && IsSignedNumeral(c[2..k]) && IsSignedNumeral(c[k + 1..]))
  }

  /** The first index at or after `from` whose character is not in `[0-9.]`. */
  function NumeralEnd(s: string, from: nat): (e: nat)
    requires from <= |s|
    ensures from <= e <= |s|
    ensures forall k :: from <= k < e ==> IsNumeralChar(s[k])
    ensures e < |s| ==> !IsNumeralChar(s[e])
    decreases |s| - from
  {
    if from == |s| || !IsNumeralChar(s[from]) then from else NumeralEnd(s, from + 1)
  }

  /** Scans `[-]?[0-9.]+` greedily from `i`: where it ends, if it matches. */
  function SignedNumeralEnd(s: string, i: nat): Option<nat>
    requires i <= |s|
  {
    var start := if i < |s| && s[i] == '-' then i + 1 else i;
    var e := NumeralEnd(s, start);
    if e == start then None else Some(e)
  }

  /** The scanner ends exactly at the index where a signed numeral starting
      at `i` is followed by a character outside `[0-9.]` or by the end. */
  lemma SignedNumeralEndMeaning(s: string, i: nat, e: nat)
    requires i <= e <= |s|
    ensures SignedNumeralEnd(s, i) == Some(e) <==>
      IsSignedNumeral(s[i..e]) && (e == |s| || !IsNumeralChar(s[e]))
  {
    var start := if i < |s| && s[i] == '-' then i + 1 else i;
    var end := NumeralEnd(s, start);
    if IsSignedNumeral(s[i..e]) && (e == |s| || !IsNumeralChar(s[e])) {
      var body := if IsNumeral(s[i..e]) then s[i..e] else s[i + 1..e];
      var offset := if IsNumeral(s[i..e]) then i else i + 1;
      assert s[i..e][0] == s[i];
      assert !IsNumeral(s[i..e]) ==> s[i..e][1..] == s[i + 1..e];
      assert start == offset;
      assert forall k :: 0 <= k < |body| ==> body[k] == s[offset + k];
    }
    if SignedNumeralEnd(s, i) == Some(e) {
      if start == i {
        assert forall k :: 0 <= k < e - i ==> s[i..e][k] == s[i + k];
        assert IsNumeral(s[i..e]);
      } else {
        var body := s[i + 1..e];
        assert s[i..e][1..] == body;
        assert forall k :: 0 <= k < |body| ==> body[k] == s[i + 1 + k];
        assert IsNumeral(body);
      }
    }
  }

  /** The scanner for the two patterns of lines 218-219 on cleaned text. */
  predicate LooksLikeSolution(c: string)
  {
    && |c| >= 2 && c[0] == 'x' && c[1] == '='
    && match SignedNumeralEnd(c, 2)
       case None => false
       case Some(k) => k == |c| || (c[k] == '/' && k + 1 <= |c| && SignedNumeralEnd(c, k + 1) == Some(|c|))
  }

  lemma LooksLikeSolutionSound(c: string)
    requires LooksLikeSolution(c)
    ensures IsSolutionShape(c)
  {
    var k := SignedNumeralEnd(c, 2).value;
    SignedNumeralEndMeaning(c, 2, k);
    if k < |c| {
      SignedNumeralEndMeaning(c, k + 1, |c|);
    }
  }

  lemma LooksLikeSolutionFraction(c: string, k: nat)
    requires |c| >= 2 && c[0] == 'x' && c[1] == '='
    requires 2 <= k < |c| && c[k] == '/' && IsSignedNumeral(c[2..k]) && IsSignedNumeral(c[k + 1..])
    ensures LooksLikeSolution(c)
  {
    SignedNumeralEndMeaning(c, 2, k);
    SignedNumeralEndMeaning(c, k + 1, |c|);
  }

  lemma LooksLikeSolutionComplete(c: string)
    requires IsSolutionShape(c)
    ensures LooksLikeSolution(c)
  {
    if IsSignedNumeral(c[2..]) {
      SignedNumeralEndMeaning(c, 2, |c|);
    } else {
      var k :| 2 <= k < |c| && c[k] == '/' && IsSignedNumeral(c[2..k]) && IsSignedNumeral(c[k + 1..]);
      LooksLikeSolutionFraction(c, k);
    }
  }

  /** The scanner accepts exactly the two patterns. */
  lemma LooksLikeSolutionSpec(c: string)
    ensures LooksLikeSolution(c) <==> IsSolutionShape(c)
  {
    if LooksLikeSolution(c) {
      LooksLikeSolutionSound(c);
    }
    if IsSolutionShape(c) {
      LooksLikeSolutionComplete(c);
    }
  }

  /** `isLikelySolution` (lines 214-220). */
  predicate IsLikelySolution(work: string)
  {
    LooksLikeSolution(Lower(ReplaceAll(work, " ", "")))
  }

  // -------------------------------------------- generateNextStepSuggestion

  const SolutionFound := "Great work! You've found the solution."

  /** `generateNextStepSuggestion` (lines 164-178). */
  function NextStepSuggestion(currentWork: string, stepNumber: int): (r: Option<string>)
    ensures r.Some?
    ensures r == Some(SolutionFound) <==> IsLikelySolution(currentWork)
  {
    if IsLikelySolution(currentWork) then Some(SolutionFound)
    else if stepNumber == 0 then Some("Good start! What's your next move?")
    else if stepNumber == 1 then Some("You're on the right track. Keep simplifying.")
    else if stepNumber == 2 then Some("Nice work. What operation comes next?")
    else if stepNumber == 3 then Some("Almost there! Continue simplifying.")
    else Some("Looking good! Keep going.")
  }

  // ------------------------------------------------------- suggestNextStep

  /** Kotlin's `substringAfter(c)`: the text after the first `c`, or the
      whole text when there is none. */
  function SubstringAfter(s: string, c: char): (r: string)
    ensures c !in s ==> r == s
    ensures c in s ==> exists i :: 0 <= i < |s| && s[i] == c && c !in s[..i] && r == s[i + 1..]
  {
    var i := NextIndex(s, c, 0);
    if i == |s| then s
    else
      assert forall k :: 0 <= k < i ==> s[..i][k] != c;
      s[i + 1..]
  }

  /** `contains(Regex("[0-9]"))`. */
  predicate HasDigit(s: string)
  {
    exists k :: 0 <= k < |s| && IsAsciiDigit(s[k])
  }

  /** What `.` in a Java pattern does not match. */
  predicate IsLineTerminator(c: char)
  {
    c == '\n' || c == '\r' || c == '\U{0085}' || c == '\U{2028}' || c == '\U{2029}'
  }

  /** `[0-9.-]`. */
  predicate IsAnswerChar(c: char) { IsAsciiDigit(c) || c == '.' || c == '-' }

  /** No line terminator in `w[lo..hi]`. */
  predicate OneLine(w: string, lo: int, hi: int)
    requires 0 <= lo <= hi <= |w|
  {
    forall t :: lo <= t < hi ==> !IsLineTerminator(w[t])
  }

  /** Only `\s` characters in `w[lo..hi]`. */
  predicate SpacesOnly(w: string, lo: int, hi: int)
    requires 0 <= lo <= hi <= |w|
  {
    forall t :: lo <= t < hi ==> IsPatternSpace(w[t])
  }

  /** One way for `w` to match `.*x\s*=\s*[0-9.-]+.*` in full: `x` at `i`,
      `=` at `j`, the number on `[k, m)`. */
  ghost predicate DoneSplit(w: string, i: int, j: int, k: int, m: int)
  {
    && 0 <= i < j < k < m <= |w|
    && OneLine(w, 0, i)
    && w[i] == 'x' && SpacesOnly(w, i + 1, j)
    && w[j] == '=' && SpacesOnly(w, j + 1, k)
    && (forall t :: k <= t < m ==> IsAnswerChar(w[t]))
    && OneLine(w, m, |w|)
  }

  ghost predicate MatchesDonePattern(w: string)
  {
    exists i, j, k, m :: DoneSplit(w, i, j, k, m)
  }

  /** The first index at or after `from` that is not a `\s` character. */
  function SkipSpaces(s: string, from: nat): (e: nat)
    requires from <= |s|
    ensures from <= e <= |s|
    ensures forall k :: from <= k < e ==> IsPatternSpace(s[k])
    ensures e < |s| ==> !IsPatternSpace(s[e])
    decreases |s| - from
  {
    if from == |s| || !IsPatternSpace(s[from]) then from else SkipSpaces(s, from + 1)
  }

  lemma {:induction false} SkipSpacesTo(s: string, from: nat, e: nat)
    requires from <= e < |s| && SpacesOnly(s, from, e) && !IsPatternSpace(s[e])
    ensures SkipSpaces(s, from) == e
    decreases e - from
  {
    if from < e {
      SkipSpacesTo(s, from + 1, e);
    }
  }

  /** The pattern with its `x` at `i`: the spaces are skipped greedily, and
      the rest of the line must not hold a line terminator. */
  predicate DoneAt(w: string, i: nat)
    requires i < |w|
  {
    && w[i] == 'x'
    && var j := SkipSpaces(w, i + 1);
    && j < |w| && w[j] == '='
    && var k := SkipSpaces(w, j + 1);
    && k < |w| && IsAnswerChar(w[k])
    && OneLine(w, k + 1, |w|)
  }

  /** Tries every position of the `x` from `from` on, up to the first line
      terminator, which the leading `.*` cannot cross. */
  predicate FindDone(w: string, from: nat)
    requires from <= |w|
    decreases |w| - from
  {
    if from == |w| || IsLineTerminator(w[from]) then false
    else DoneAt(w, from) || FindDone(w, from + 1)
  }

  lemma DoneAtSplit(w: string, i: nat)
    requires i < |w| && OneLine(w, 0, i)
    ensures DoneAt(w, i) <==> exists j, k, m :: DoneSplit(w, i, j, k, m)
  {
    if DoneAt(w, i) {
      var j := SkipSpaces(w, i + 1);
      var k := SkipSpaces(w, j + 1);
      assert DoneSplit(w, i, j, k, k + 1);
    }
    if j, k, m :| DoneSplit(w, i, j, k, m) {
      SkipSpacesTo(w, i + 1, j);
      SkipSpacesTo(w, j + 1, k);
    }
  }

  lemma {:induction false} FindDoneSpec(w: string, from: nat)
    requires from <= |w| && OneLine(w, 0, from)
    ensures FindDone(w, from) <==> exists i, j, k, m :: from <= i && DoneSplit(w, i, j, k, m)
    decreases |w| - from
  {
    if from == |w| {
    } else if IsLineTerminator(w[from]) {
    } else {
      DoneAtSplit(w, from);
      FindDoneSpec(w, from + 1);
      if i, j, k, m :| from <= i && DoneSplit(w, i, j, k, m) {
        if i == from {
          assert exists j, k, m :: DoneSplit(w, from, j, k, m);
        } else {
          assert from + 1 <= i;
        }
      }
    }
  }

  /** The scanner decides the full-match regex of line 203. */
  lemma FindDoneMatches(w: string)
    ensures FindDone(w, 0) <==> MatchesDonePattern(w)
  {
    FindDoneSpec(w, 0);
  }

  const CombineLikeTerms := "Try combining like terms or moving variables to one side"
  const IsolateVariable := "What operation will help isolate the variable?"
  const InverseOperation := "Use the inverse operation to isolate the variable"
  const Done := "You're done! Check your answer by substituting back."

  /** `suggestNextStep` (lines 183-209). */
  function SuggestNextStep(currentWork: string): Option<string>
  {
    var work := Lower(currentWork);
    if 'x' in work && HasDigit(SubstringAfter(work, '=')) then Some(CombineLikeTerms)
    else if '+' in work && 'x' in work then Some(IsolateVariable)
    else if ('*' in work || '/' in work) && 'x' in work then Some(InverseOperation)
    else if FindDone(work, 0) then Some(Done)
    else None
  }

  /** Every `x` of the lowercased text comes from an `x` or an `X`. */
  lemma LowerHasX(s: string)
    ensures 'x' in Lower(s) <==> 'x' in s || 'X' in s
  {
    if 'x' in Lower(s) {
      var k :| 0 <= k < |s| && Lower(s)[k] == 'x';
      assert s[k] == 'x' || s[k] == 'X';
    }
    if 'x' in s || 'X' in s {
      var k :| 0 <= k < |s| && (s[k] == 'x' || s[k] == 'X');
      assert Lower(s)[k] == 'x';
    }
  }

  /** Text without an `x` in either case gets no suggestion. */
  lemma SuggestNextStepNeedsX(currentWork: string)
    requires 'x' !in currentWork && 'X' !in currentWork
    ensures SuggestNextStep(currentWork) == None
  {
    LowerHasX(currentWork);
    var work := Lower(currentWork);
    FindDoneMatches(work);
  }

  /** "You're done!" is only ever suggested when no digit follows the
      first `=` (the whole text when there is none), and then only for a
      match of the pattern of line 203. */
  lemma DoneMeansNoDigitAfterEquals(currentWork: string)
    requires SuggestNextStep(currentWork) == Some(Done)
    ensures var work := Lower(currentWork);
      !HasDigit(SubstringAfter(work, '=')) && MatchesDonePattern(work)
  {
    FindDoneMatches(Lower(currentWork));
  }

  /** A finished answer `x=` followed by digits is told to combine like
      terms, never that it is done. */
  lemma SolvedFormIsNotDone(digits: string)
    requires |digits| > 0 && forall k :: 0 <= k < |digits| ==> IsAsciiDigit(digits[k])
    ensures SuggestNextStep("x=" + digits) == Some(CombineLikeTerms)
  {
    var w := "x=" + digits;
    assert Lower(w)[0] == 'x' && Lower(w)[1] == '=';
    assert Lower(w) == w by {
      forall k | 0 <= k < |w| ensures Lower(w)[k] == w[k] {
        if k >= 2 { assert w[k] == digits[k - 2]; }
      }
    }
    assert NextIndex(w, '=', 0) == 1 by {
      assert NextIndex(w, '=', 1) == 1;
    }
    assert SubstringAfter(w, '=')[0] == digits[0];
  }

  // ------------------------------------------------------ generateStuckHint

  /** `generateStuckHint` (lines 225-240); the time is in milliseconds. */
  function StuckHint(problemType: ProblemType, timeStuck: int): string
  {
    if timeStuck < 30000 then "Take your time and think about what you've learned"
    else if timeStuck < 60000 then
      match problemType
      case Linear => "Remember: isolate the variable by performing inverse operations"
      case Quadratic => "Try factoring or using the quadratic formula"
      case Rational => "Multiply by the common denominator to clear fractions"
      case _ => GenericStuckHint
    else "Would you like a more detailed hint about the next step?"
  }

  /** Which of the three time buckets a wait falls in. */
  function StuckBucket(timeStuck: int): nat
  {
    if timeStuck < 30000 then 0 else if timeStuck < 60000 then 1 else 2
  }

  const GenericStuckHint := "Break the problem down into smaller steps"

  /** Only the middle bucket looks at the problem type: there LINEAR,
      QUADRATIC and RATIONAL get texts of their own and every other type
      the fallback. */
  lemma StuckHintBuckets(type1: ProblemType, type2: ProblemType, timeStuck: int)
    ensures StuckBucket(timeStuck) != 1 ==> StuckHint(type1, timeStuck) == StuckHint(type2, timeStuck)
    ensures StuckBucket(timeStuck) == 1 ==>
      (StuckHint(type1, timeStuck) == GenericStuckHint <==> type1 !in {Linear, Quadratic, Rational})
  {
  }

  /** For a given problem type the text depends on the time only through
      its bucket: two waits in the same bucket get the same text. */
  lemma StuckHintByBucket(problemType: ProblemType, time1: int, time2: int)
    ensures StuckBucket(time1) == StuckBucket(time2) ==>
      StuckHint(problemType, time1) == StuckHint(problemType, time2)
  {
  }
}
