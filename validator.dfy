/** The step validator (MathValidator.kt): numeric equivalence by probing,
    equation balance, the error classifier and the `validateStep` ladder.

    The arithmetic itself is done by the exp4j library, which is not part of
    this model: every operation takes the evaluator as a parameter `eval`,
    standing for `ExpressionBuilder(s).variables("x").build()
    .setVariable("x", 0.0).evaluate()` (lines 232-236), with `None` for any
    exception it throws. */
module MathValidator {
  import opened Options
  import opened Strings
  import opened Models
  import opened Cleaning
  import opened Equations

  type Evaluator = string -> Option<real>

  /** The `0.0001` of lines 24, 34, 126, 127, 191 and 199. */
  const Tolerance: real := 0.0001

  function Abs(r: real): real { if r < 0.0 then -r else r }

  /** `abs(a - b) < 0.0001`. */
  predicate Close(a: real, b: real) { Abs(a - b) < Tolerance }

  /** Both evaluations succeeded and their values are within tolerance. */
  predicate BothClose(a: Option<real>, b: Option<real>)
  {
    a.Some? && b.Some? && Close(a.value, b.value)
  }

  /** The probe values of `areEquivalent` (line 28), as `Double.toString`
      spells them, since they are substituted into the text. */
  const ExpressionProbes: seq<string> := ["0.0", "1.0", "-1.0", "2.0", "-2.0", "0.5", "10.0"]

  /** The probe values of `doEquationsMaintainSolution` (line 113). */
  const SolutionProbes: seq<string> := ["0.0", "1.0", "-1.0", "2.0", "5.0", "-5.0"]

  // ----------------------------------------------------------- evaluation

  /** `evaluateExpression` (lines 230-237). */
  function EvaluateExpression(eval: Evaluator, expression: string): Option<real>
  {
    eval(CleanExpression(expression))
  }

  /** `evaluateWithVariable(expression, "x", value)` (lines 222-225): the
      variable is replaced textually and the result cleaned again. */
  function EvaluateWithVariable(eval: Evaluator, expression: string, value: string): Option<real>
  {
    EvaluateExpression(eval, ReplaceAll(CleanExpression(expression), "x", value))
  }

  // --------------------------------------------------------- areEquivalent

  /** The body of the `all { }` of lines 31-37 for one probe value: both
      evaluations succeed (an exception gives `false`) and agree within
      tolerance. */
  predicate AgreeAt(eval: Evaluator, cleaned1: string, cleaned2: string, value: string)
  {
    BothClose(EvaluateWithVariable(eval, cleaned1, value), EvaluateWithVariable(eval, cleaned2, value))
  }

  /** `values.all { ... }`. */
  predicate AgreeAtAll(eval: Evaluator, cleaned1: string, cleaned2: string, values: seq<string>)
  {
    values == [] || (AgreeAt(eval, cleaned1, cleaned2, values[0]) && AgreeAtAll(eval, cleaned1, cleaned2, values[1..]))
  }

  /** `areEquivalent` (lines 15-42). */
  predicate AreEquivalent(eval: Evaluator, expr1: string, expr2: string)
  {
    var cleaned1 := CleanExpression(expr1);
    var cleaned2 := CleanExpression(expr2);
    if 'x' !in cleaned1 && 'x' !in cleaned2 then
      BothClose(EvaluateExpression(eval, cleaned1), EvaluateExpression(eval, cleaned2))
    else
      AgreeAtAll(eval, cleaned1, cleaned2, ExpressionProbes)
  }

  /** `all` holds exactly when the predicate holds at every probe value. */
  lemma {:induction false} AgreeAtAllEvery(eval: Evaluator, cleaned1: string, cleaned2: string, values: seq<string>)
    ensures AgreeAtAll(eval, cleaned1, cleaned2, values) <==> forall v :: v in values ==> AgreeAt(eval, cleaned1, cleaned2, v)
  {
    if values != [] {
      AgreeAtAllEvery(eval, cleaned1, cleaned2, values[1..]);
      assert forall v :: v in values <==> v == values[0] || v in values[1..];
    }
  }

  /** Evaluating text that is already clean evaluates exactly that text:
      the second cleaning done by `evaluateExpression` changes nothing. */
  lemma EvaluateCleaned(eval: Evaluator, expr: string)
    ensures EvaluateExpression(eval, CleanExpression(expr)) == eval(CleanExpression(expr))
  {
    CleanIdempotent(expr);
  }

  /** What `areEquivalent` decides: when neither cleaned side mentions `x`,
      one evaluation of each cleaned side, within tolerance; otherwise
      agreement at every probe value. In both cases any failed evaluation
      makes it false. */
  lemma AreEquivalentMeaning(eval: Evaluator, expr1: string, expr2: string)
    ensures var c1, c2 := CleanExpression(expr1), CleanExpression(expr2);
      AreEquivalent(eval, expr1, expr2) <==>
        if 'x' !in c1 && 'x' !in c2 then BothClose(eval(c1), eval(c2))
        else forall v :: v in ExpressionProbes ==> AgreeAt(eval, c1, c2, v)
  {
    EvaluateCleaned(eval, expr1);
    EvaluateCleaned(eval, expr2);
    AgreeAtAllEvery(eval, CleanExpression(expr1), CleanExpression(expr2), ExpressionProbes);
  }

  lemma BothCloseSymmetric(a: Option<real>, b: Option<real>)
    ensures BothClose(a, b) == BothClose(b, a)
  {
    if a.Some? && b.Some? {
      assert Abs(a.value - b.value) == Abs(b.value - a.value);
    }
  }

  lemma {:induction false} AgreeAtAllSymmetric(eval: Evaluator, cleaned1: string, cleaned2: string, values: seq<string>)
    ensures AgreeAtAll(eval, cleaned1, cleaned2, values) == AgreeAtAll(eval, cleaned2, cleaned1, values)
  {
    if values != [] {
      BothCloseSymmetric(EvaluateWithVariable(eval, cleaned1, values[0]), EvaluateWithVariable(eval, cleaned2, values[0]));
      AgreeAtAllSymmetric(eval, cleaned1, cleaned2, values[1..]);
    }
  }

  /** `areEquivalent` is symmetric. */
  lemma AreEquivalentSymmetric(eval: Evaluator, expr1: string, expr2: string)
    ensures AreEquivalent(eval, expr1, expr2) == AreEquivalent(eval, expr2, expr1)
  {
    var c1, c2 := CleanExpression(expr1), CleanExpression(expr2);
    BothCloseSymmetric(EvaluateExpression(eval, c1), EvaluateExpression(eval, c2));
    AgreeAtAllSymmetric(eval, c1, c2, ExpressionProbes);
  }

  /** With no `x` on either side, `areEquivalent` looks at the evaluator in
      exactly two places, the two cleaned expressions: evaluators that agree
      there give the same answer. */
  lemma AreEquivalentConstantsEvaluatedOnce(eval1: Evaluator, eval2: Evaluator, expr1: string, expr2: string)
    requires 'x' !in CleanExpression(expr1) && 'x' !in CleanExpression(expr2)
    requires eval1(CleanExpression(expr1)) == eval2(CleanExpression(expr1))
    requires eval1(CleanExpression(expr2)) == eval2(CleanExpression(expr2))
    ensures AreEquivalent(eval1, expr1, expr2) == AreEquivalent(eval2, expr1, expr2)
  {
    EvaluateCleaned(eval1, expr1);
    EvaluateCleaned(eval1, expr2);
    EvaluateCleaned(eval2, expr1);
    EvaluateCleaned(eval2, expr2);
  }

  /** An expression is equivalent to itself exactly when every evaluation
      `areEquivalent` performs on it succeeds. */
  lemma AreEquivalentReflexive(eval: Evaluator, expr: string)
    ensures var c := CleanExpression(expr);
      AreEquivalent(eval, expr, expr) <==>
        if 'x' !in c then eval(c).Some?
        else forall v :: v in ExpressionProbes ==> EvaluateWithVariable(eval, c, v).Some?
  {
    EvaluateCleaned(eval, expr);
    AgreeAtAllEvery(eval, CleanExpression(expr), CleanExpression(expr), ExpressionProbes);
  }

  // ------------------------------------------------------- isValidEquation

  /** `isValidEquation` (lines 47-56). */
  predicate IsValidEquation(eval: Evaluator, equation: string)
  {
    match SplitEquation(equation)
    case None => false
    case Some(sides) => AreEquivalent(eval, sides.first, sides.second)
  }

  /** An equation is balanced only if it has exactly one `=`, and then
      exactly when the trimmed text on its two sides is equivalent. */
  lemma IsValidEquationMeaning(eval: Evaluator, equation: string)
    ensures IsValidEquation(eval, equation) ==> Count(equation, '=') == 1
    ensures Count(equation, '=') == 1 ==>
      exists i :: 0 <= i < |equation| && equation[i] == '=' &&
        (IsValidEquation(eval, equation) <==>
          AreEquivalent(eval, Trim(equation[..i]), Trim(equation[i + 1..])))
  {
    SplitEquationSpec(equation);
  }

  // ------------------------------------------------------------ classifier

  /** `replace(" ", "").lowercase()` of `areExpressionsIdentical`. */
  function Normalized(expr: string): string
  {
    Lower(ReplaceAll(expr, " ", ""))
  }

  /** `areExpressionsIdentical` (lines 213-217). */
  predicate AreExpressionsIdentical(expr1: string, expr2: string)
  {
    Normalized(expr1) == Normalized(expr2)
  }

  /** `hasSignError` (lines 160-180). */
  predicate HasSignError(eval: Evaluator, prevSides: EquationSides, currSides: EquationSides)
  {
    var leftUnchanged := AreExpressionsIdentical(prevSides.first, currSides.first);
    var rightUnchanged := AreExpressionsIdentical(prevSides.second, currSides.second);
    if leftUnchanged && !rightUnchanged then !AreEquivalent(eval, prevSides.second, currSides.second)
    else if !leftUnchanged && rightUnchanged then !AreEquivalent(eval, prevSides.first, currSides.first)
    else false
  }

  /** One of the two `if` blocks of `hasCalculationError` (lines 188-194 and
      196-202): `Some(true)` returns true, `Some(false)` falls through and
      `None` is an exception, caught at line 204. */
  function SideCalculation(eval: Evaluator, prevSide: string, currSide: string): Option<bool>
  {
    if 'x' !in prevSide && 'x' !in currSide then
      match EvaluateExpression(eval, prevSide)
      case None => None
      case Some(prevVal) =>
        match EvaluateExpression(eval, currSide)
        case None => None
        case Some(currVal) => Some(Abs(prevVal - currVal) > Tolerance)
    else Some(false)
  }

  /** `hasCalculationError` (lines 185-208). */
  predicate HasCalculationError(eval: Evaluator, prevSides: EquationSides, currSides: EquationSides)
  {
    match SideCalculation(eval, prevSides.first, currSides.first)
    case None => false
    case Some(true) => true
    case Some(false) => SideCalculation(eval, prevSides.second, currSides.second) == Some(true)
  }

  /** `detectErrorType` (lines 140-155). */
  function DetectErrorType(eval: Evaluator, prevSides: EquationSides, currSides: EquationSides): (r: Option<ErrorType>)
    ensures r.None? || r.value == SignError || r.value == CalculationError
  {
    if HasSignError(eval, prevSides, currSides) then Some(SignError)
    else if HasCalculationError(eval, prevSides, currSides) then Some(CalculationError)
    else None
  }

  /** The two sides of an equation exchanged. */
  function Swap(sides: EquationSides): EquationSides
  {
    EquationSides(sides.second, sides.first)
  }

  /** The sign check treats the two sides alike: writing both equations
      the other way round does not change its answer. */
  lemma HasSignErrorSwap(eval: Evaluator, prevSides: EquationSides, currSides: EquationSides)
    ensures HasSignError(eval, Swap(prevSides), Swap(currSides)) == HasSignError(eval, prevSides, currSides)
  {
  }

  /** The calculation check does not treat the sides alike: when the left
      side has no `x` and its evaluation throws, the exception ends the
      check, so no calculation error is reported whatever the right side
      holds, and the evaluator is never asked about the right-hand texts. */
  lemma CalculationLeftFailureSkipsRight(eval1: Evaluator, eval2: Evaluator, prevSides: EquationSides, currSides: EquationSides)
    requires 'x' !in prevSides.first && 'x' !in currSides.first
    requires EvaluateExpression(eval1, prevSides.first).None?
    requires EvaluateExpression(eval1, prevSides.first) == EvaluateExpression(eval2, prevSides.first)
    requires EvaluateExpression(eval1, currSides.first) == EvaluateExpression(eval2, currSides.first)
    ensures !HasCalculationError(eval1, prevSides, currSides)
    ensures HasCalculationError(eval1, prevSides, currSides) == HasCalculationError(eval2, prevSides, currSides)
  {
  }

  /** Both evaluations succeeded and their values are further apart than
      the tolerance: the `abs(prevVal - currVal) > 0.0001` of lines 191
      and 199. */
  predicate Apart(a: Option<real>, b: Option<real>)
  {
    a.Some? && b.Some? && Abs(a.value - b.value) > Tolerance
  }

  /** A step that leaves the equation untouched is never classified. */
  lemma DetectErrorTypeOfSameSides(eval: Evaluator, sides: EquationSides)
    ensures DetectErrorType(eval, sides, sides) == None
  {
    assert SideCalculation(eval, sides.first, sides.first) != Some(true);
    assert SideCalculation(eval, sides.second, sides.second) != Some(true);
  }

  // -------------------------------------------- doEquationsMaintainSolution

  /** Both sides of an equation evaluate at the probe value `v`. */
  predicate SidesEvaluate(eval: Evaluator, sides: EquationSides, v: string)
  {
    EvaluateWithVariable(eval, sides.first, v).Some? && EvaluateWithVariable(eval, sides.second, v).Some?
  }

  /** The probe value `v` satisfies the equation within tolerance. */
  predicate SatisfiedAt(eval: Evaluator, sides: EquationSides, v: string)
  {
    BothClose(EvaluateWithVariable(eval, sides.first, v), EvaluateWithVariable(eval, sides.second, v))
  }

  /** The body of the `all { }` of lines 116-133 for one probe value: all
      four evaluations succeed (an exception gives `false`), and if `v`
      satisfies the previous equation within tolerance it satisfies the
      current one. */
  predicate MaintainsAt(eval: Evaluator, prevSides: EquationSides, currSides: EquationSides, v: string)
  {
    && SidesEvaluate(eval, prevSides, v) && SidesEvaluate(eval, currSides, v)
    && (SatisfiedAt(eval, prevSides, v) ==> SatisfiedAt(eval, currSides, v))
  }

  predicate MaintainsAtAll(eval: Evaluator, prevSides: EquationSides, currSides: EquationSides, values: seq<string>)
  {
    values == [] || (MaintainsAt(eval, prevSides, currSides, values[0]) && MaintainsAtAll(eval, prevSides, currSides, values[1..]))
  }

  /** `doEquationsMaintainSolution` (lines 109-135). */
  predicate MaintainsSolution(eval: Evaluator, prevSides: EquationSides, currSides: EquationSides)
  {
    MaintainsAtAll(eval, prevSides, currSides, SolutionProbes)
  }

  lemma {:induction false} MaintainsAtAllEvery(eval: Evaluator, prevSides: EquationSides, currSides: EquationSides, values: seq<string>)
    ensures MaintainsAtAll(eval, prevSides, currSides, values) <==>
      forall v :: v in values ==> MaintainsAt(eval, prevSides, currSides, v)
  {
    if values != [] {
      MaintainsAtAllEvery(eval, prevSides, currSides, values[1..]);
      assert forall v :: v in values <==> v == values[0] || v in values[1..];
    }
  }

  /** `doEquationsMaintainSolution` holds exactly when the rule holds at
      each of the six probe values. */
  lemma MaintainsSolutionMeaning(eval: Evaluator, prevSides: EquationSides, currSides: EquationSides)
    ensures MaintainsSolution(eval, prevSides, currSides) <==>
      forall v :: v in SolutionProbes ==> MaintainsAt(eval, prevSides, currSides, v)
  {
    MaintainsAtAllEvery(eval, prevSides, currSides, SolutionProbes);
  }

  /** The check only constrains probe values that satisfy the previous
      equation: when none does, any current equation whose sides evaluate
      is accepted. */
  lemma MaintainsSolutionWithoutProbeSolutions(eval: Evaluator, prevSides: EquationSides, currSides: EquationSides)
    requires forall v :: v in SolutionProbes ==>
      SidesEvaluate(eval, prevSides, v) && SidesEvaluate(eval, currSides, v) && !SatisfiedAt(eval, prevSides, v)
    ensures MaintainsSolution(eval, prevSides, currSides)
  {
    MaintainsSolutionMeaning(eval, prevSides, currSides);
  }

  // ----------------------------------------------------------- validateStep

  /** The verdict on one step (lines 303-307). */
  datatype StepValidation = StepValidation(isValid: bool, errorType: Option<ErrorType>, message: string)

  /** `getErrorMessage` (lines 284-292). */
  function ErrorMessage(errorType: ErrorType): string
  {
    match errorType
    case SignError => "Check your signs - did you apply the operation to both sides?"
    case CalculationError => "Double-check your arithmetic"
    case AlgebraicMistake => "This algebraic step doesn't follow from the previous one"
    case WrongApproach => "This approach may not lead to the solution"
    case IncompleteStep => "This step is incomplete or unclear"
  }

  /** The messages `validateStep` can produce other than `getErrorMessage`'s. */
  const CouldNotParse := "Could not parse equation"
  const InvalidFormat := "Invalid equation format"
  const PreviousInvalid := "Previous equation is invalid"
  const CurrentInvalid := "Current equation is invalid"
  const NotMaintained := "This step doesn't maintain equivalence"
  const Correct := "Step is correct"

  /** Lines 71-99 of `validateStep`, once both equations have been found:
      the split, then the checks in order. */
  function ValidateEquations(eval: Evaluator, prevEq: string, currEq: string): (v: StepValidation)
    ensures v.isValid <==> v.errorType.None?
    ensures v.isValid ==> v.message == Correct
    ensures v.errorType == Some(IncompleteStep) <==> SplitEquation(prevEq).None? || SplitEquation(currEq).None?
  {
    var prevSides := SplitEquation(prevEq);
    var currSides := SplitEquation(currEq);
    if prevSides.None? || currSides.None? then
      StepValidation(false, Some(IncompleteStep), InvalidFormat)
    else if !IsValidEquation(eval, prevEq) then
      StepValidation(false, Some(AlgebraicMistake), PreviousInvalid)
    else if !IsValidEquation(eval, currEq) then
      StepValidation(false, Some(AlgebraicMistake), CurrentInvalid)
    else
      match DetectErrorType(eval, prevSides.value, currSides.value)
      case Some(errorType) => StepValidation(false, Some(errorType), ErrorMessage(errorType))
      case None =>
        if !MaintainsSolution(eval, prevSides.value, currSides.value) then
          StepValidation(false, Some(AlgebraicMistake), NotMaintained)
        else
          StepValidation(true, None, Correct)
  }

  /** `validateStep` (lines 61-104). The catch of line 101 is not modelled:
      every evaluation failure is already caught further in. */
  function ValidateStep(eval: Evaluator, previousStep: string, currentStep: string): (v: StepValidation)
    ensures v.isValid <==> v.errorType.None?
    ensures v.isValid ==> v.message == Correct
  {
    var prevEq := ExtractEquation(previousStep);
    var currEq := ExtractEquation(currentStep);
    if prevEq.None? || currEq.None? then
      StepValidation(false, Some(IncompleteStep), CouldNotParse)
    else
      ValidateEquations(eval, prevEq.value, currEq.value)
  }

  /** `INCOMPLETE_STEP` is reported exactly when one of the two steps has no
      equation in it; the "Invalid equation format" branch is unreachable. */
  lemma IncompleteStepMeansNoEquation(eval: Evaluator, previousStep: string, currentStep: string)
    ensures var v := ValidateStep(eval, previousStep, currentStep);
      v.errorType == Some(IncompleteStep) <==>
        ExtractEquation(previousStep).None? || ExtractEquation(currentStep).None?
  {
    if ExtractEquation(previousStep).Some? && ExtractEquation(currentStep).Some? {
      ExtractedEquationSplits(previousStep);
      ExtractedEquationSplits(currentStep);
    }
  }

  /** The checks after the split, stated without their order. */
  lemma ValidEquationsMeaning(eval: Evaluator, prevEq: string, currEq: string)
    ensures ValidateEquations(eval, prevEq, currEq).isValid <==>
      && SplitEquation(prevEq).Some? && SplitEquation(currEq).Some?
      && IsValidEquation(eval, prevEq) && IsValidEquation(eval, currEq)
      && DetectErrorType(eval, SplitEquation(prevEq).value, SplitEquation(currEq).value).None?
      && MaintainsSolution(eval, SplitEquation(prevEq).value, SplitEquation(currEq).value)
  {
  }

  /** A step is accepted exactly when both equations are found and are
      balanced, the classifier finds nothing and the solutions are kept. */
  lemma ValidStepMeaning(eval: Evaluator, previousStep: string, currentStep: string)
    ensures ValidateStep(eval, previousStep, currentStep).isValid <==>
      && ExtractEquation(previousStep).Some? && ExtractEquation(currentStep).Some?
      && var prevEq, currEq := ExtractEquation(previousStep).value, ExtractEquation(currentStep).value;
      && IsValidEquation(eval, prevEq) && IsValidEquation(eval, currEq)
      && DetectErrorType(eval, SplitEquation(prevEq).value, SplitEquation(currEq).value).None?
      && MaintainsSolution(eval, SplitEquation(prevEq).value, SplitEquation(currEq).value)
  {
    if ExtractEquation(previousStep).Some? && ExtractEquation(currentStep).Some? {
      ExtractedEquationSplits(previousStep);
      ExtractedEquationSplits(currentStep);
      ValidEquationsMeaning(eval, ExtractEquation(previousStep).value, ExtractEquation(currentStep).value);
    }
  }

  /** The order of the checks: a previous equation that is not balanced is
      reported before anything about the current one is looked at. */
  lemma UnbalancedPreviousRejected(eval: Evaluator, previousStep: string, currentStep: string)
    requires ExtractEquation(previousStep).Some? && ExtractEquation(currentStep).Some?
    requires !IsValidEquation(eval, ExtractEquation(previousStep).value)
    ensures ValidateStep(eval, previousStep, currentStep) ==
      StepValidation(false, Some(AlgebraicMistake), PreviousInvalid)
  {
    ExtractedEquationSplits(previousStep);
    ExtractedEquationSplits(currentStep);
  }

  /** Since the previous equation must itself pass `isValidEquation`, an
      equation in `x` whose sides fail to agree within the tolerance at one
      of the seven probe values (such as `2x + 3 = 7`) rejects every step
      that starts from it. */
  lemma ConditionalEquationRejected(eval: Evaluator, previousStep: string, currentStep: string, v: string)
    requires ExtractEquation(previousStep).Some? && ExtractEquation(currentStep).Some?
    requires (ExtractedEquationSplits(previousStep);
      var sides := SplitEquation(ExtractEquation(previousStep).value).value;
      var c1, c2 := CleanExpression(sides.first), CleanExpression(sides.second);
      ('x' in c1 || 'x' in c2) && v in ExpressionProbes && !AgreeAt(eval, c1, c2, v))
    ensures ValidateStep(eval, previousStep, currentStep) ==
      StepValidation(false, Some(AlgebraicMistake), PreviousInvalid)
  {
    ExtractedEquationSplits(previousStep);
    var sides := SplitEquation(ExtractEquation(previousStep).value).value;
    AreEquivalentMeaning(eval, sides.first, sides.second);
    UnbalancedPreviousRejected(eval, previousStep, currentStep);
  }

  /** The classifier's verdicts, once both equations are balanced: a sign
      error is preferred to a calculation error, each comes with the text
      of `getErrorMessage`, and `WRONG_APPROACH` is never produced. */
  lemma ClassifiedVerdicts(eval: Evaluator, prevEq: string, currEq: string)
    requires IsValidEquation(eval, prevEq) && IsValidEquation(eval, currEq)
    ensures var v := ValidateEquations(eval, prevEq, currEq);
      var prevSides, currSides := SplitEquation(prevEq).value, SplitEquation(currEq).value;
      && v.errorType != Some(WrongApproach)
      && (HasSignError(eval, prevSides, currSides) ==> v == StepValidation(false, Some(SignError), ErrorMessage(SignError)))
      && (!HasSignError(eval, prevSides, currSides) && HasCalculationError(eval, prevSides, currSides) ==>
            v == StepValidation(false, Some(CalculationError), ErrorMessage(CalculationError)))
  {
  }

  /** A verdict of the classifier is reached only once both equations
      have split and are balanced, and it is `detectErrorType`'s answer on
      their sides. */
  lemma ClassifierVerdict(eval: Evaluator, prevEq: string, currEq: string)
    requires ValidateEquations(eval, prevEq, currEq).errorType in {Some(SignError), Some(CalculationError)}
    ensures SplitEquation(prevEq).Some? && SplitEquation(currEq).Some?
    ensures IsValidEquation(eval, prevEq) && IsValidEquation(eval, currEq)
    ensures DetectErrorType(eval, SplitEquation(prevEq).value, SplitEquation(currEq).value) ==
      ValidateEquations(eval, prevEq, currEq).errorType
  {
    var v := ValidateEquations(eval, prevEq, currEq);
    assert SplitEquation(prevEq).Some? && SplitEquation(currEq).Some?;
    var prevSides, currSides := SplitEquation(prevEq).value, SplitEquation(currEq).value;
    assert IsValidEquation(eval, prevEq) && IsValidEquation(eval, currEq);
    assert DetectErrorType(eval, prevSides, currSides).None? ==> v.errorType in {None, Some(AlgebraicMistake)};
  }

  lemma DetectedSignError(eval: Evaluator, prevSides: EquationSides, currSides: EquationSides)
    requires DetectErrorType(eval, prevSides, currSides) == Some(SignError)
    ensures HasSignError(eval, prevSides, currSides)
  {
  }

  /** What a `SIGN_ERROR` verdict says about the step: both equations split
      and are balanced, and the sign check holds of their sides. */
  lemma SignErrorVerdict(eval: Evaluator, prevEq: string, currEq: string)
    requires ValidateEquations(eval, prevEq, currEq).errorType == Some(SignError)
    ensures SplitEquation(prevEq).Some? && SplitEquation(currEq).Some?
    ensures IsValidEquation(eval, prevEq) && IsValidEquation(eval, currEq)
    ensures HasSignError(eval, SplitEquation(prevEq).value, SplitEquation(currEq).value)
  {
    ClassifierVerdict(eval, prevEq, currEq);
    DetectedSignError(eval, SplitEquation(prevEq).value, SplitEquation(currEq).value);
  }

  /** The side check answers true only for texts without `x` whose values
      are more than the tolerance apart. */
  lemma SideCalculationApart(eval: Evaluator, prevSide: string, currSide: string)
    requires SideCalculation(eval, prevSide, currSide) == Some(true)
    ensures 'x' !in prevSide && 'x' !in currSide
    ensures Apart(EvaluateExpression(eval, prevSide), EvaluateExpression(eval, currSide))
  {
  }

  /** A calculation error is a side on which neither raw text mentions `x`
      and the two values are more than the tolerance apart. */
  lemma CalculationErrorSide(eval: Evaluator, prevSides: EquationSides, currSides: EquationSides)
    requires HasCalculationError(eval, prevSides, currSides)
    ensures || ('x' !in prevSides.first && 'x' !in currSides.first &&
                Apart(EvaluateExpression(eval, prevSides.first), EvaluateExpression(eval, currSides.first)))
            || ('x' !in prevSides.second && 'x' !in currSides.second &&
                Apart(EvaluateExpression(eval, prevSides.second), EvaluateExpression(eval, currSides.second)))
  {
    if SideCalculation(eval, prevSides.first, currSides.first) == Some(true) {
      SideCalculationApart(eval, prevSides.first, currSides.first);
    } else {
      SideCalculationApart(eval, prevSides.second, currSides.second);
    }
  }

  /** What a `CALCULATION_ERROR` verdict says about the step: both equations
      are balanced, the sign check did not fire, and on one side neither raw
      text mentions `x` while the two values are more than the tolerance
      apart. */
  lemma CalculationErrorVerdict(eval: Evaluator, prevEq: string, currEq: string)
    requires ValidateEquations(eval, prevEq, currEq).errorType == Some(CalculationError)
    ensures SplitEquation(prevEq).Some? && SplitEquation(currEq).Some?
    ensures IsValidEquation(eval, prevEq) && IsValidEquation(eval, currEq)
    ensures var p, c := SplitEquation(prevEq).value, SplitEquation(currEq).value;
      && !HasSignError(eval, p, c)
      && (|| ('x' !in p.first && 'x' !in c.first &&
              Apart(EvaluateExpression(eval, p.first), EvaluateExpression(eval, c.first)))
          || ('x' !in p.second && 'x' !in c.second &&
              Apart(EvaluateExpression(eval, p.second), EvaluateExpression(eval, c.second))))
  {
    ClassifierVerdict(eval, prevEq, currEq);
    CalculationErrorSide(eval, SplitEquation(prevEq).value, SplitEquation(currEq).value);
  }

  /** A step that repeats a balanced equation is accepted, provided both of
      its sides evaluate at the six solution probes. */
  lemma RepeatedStepIsValid(eval: Evaluator, step: string)
    requires ExtractEquation(step).Some?
    requires IsValidEquation(eval, ExtractEquation(step).value)
    requires forall v :: v in SolutionProbes ==> SidesEvaluate(eval, SplitEquation(ExtractEquation(step).value).value, v)
    ensures ValidateStep(eval, step, step) == StepValidation(true, None, Correct)
  {
    ExtractedEquationSplits(step);
    var sides := SplitEquation(ExtractEquation(step).value).value;
    DetectErrorTypeOfSameSides(eval, sides);
    MaintainsSolutionMeaning(eval, sides, sides);
  }
}
