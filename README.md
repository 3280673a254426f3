# MathDraw tutor core in Dafny

This project models the three string-in, string-out components of the
MathDraw handwriting tutor, and proves properties about them.

- **The step validator** (`MathValidator`). It cleans an expression. It
  finds and splits the equation in a line of student work. It tests two
  expressions for equivalence by evaluating them at fixed probe values of
  `x`. Finally it runs the fixed ladder of checks in `validateStep`, which
  yields a `StepValidation` with an `ErrorType`.
- **The hint selector** (`HintGenerator`). It holds the tables indexed by
  error type, problem type, step number and time spent stuck. It also holds
  two regular-expression classifiers of the student's text:
  `isLikelySolution` and the "done" pattern of `suggestNextStep`.
- **The LaTeX converter** (`MathSymbolConverter`). It holds the symbol
  table, built with Kotlin's `mapOf`, so a repeated key keeps its first
  place and its last value. `toLatex` applies the symbol rules, longest key
  first, in a loop. Then come the six regular-expression rewrites, the
  delimiter sizing and the brace escaping, and the result is wrapped in
  `$…$`.

Modules:

- `Strings`: Kotlin's `trim`, `replace`, `split`, `lowercase`, and facts
  about occurrences.
- `Cleaning`: `cleanExpression`.
- `Equations`: `extractEquation` and `splitEquation`.
- `MathValidator`: everything else in `MathValidator.kt`.
- `HintGenerator`.
- `Symbols`: the table and `mapOf`.
- `Patterns`: `applyPatternConversions`.
- `LatexConverter`: the sort and the `toLatex` method.

Design choices:

- **Evaluation by exp4j.** This is a foreign library working in floating
  point. The model takes it as a parameter `eval: string -> Option<real>`,
  threaded through every validator function. `None` stands for any
  exception it throws.
- **Random choice.** Each `List.random()` becomes a `roll: nat` argument
  that picks `list[roll % |list|]`. The lemmas prove that the result is in
  the list, and that every element can come out.
- **Regular expressions.** Each regular expression is a hand-written
  scanner. `Regex.replace` is modelled as a leftmost, non-overlapping
  rewrite (`Patterns.Rewrite`, `Cleaning.InsertStar`). `Regex.find` and
  `matches` each get a scanner, proved equal to a declarative description
  of the language the pattern denotes.
- **Classes and operators.** `\w` is `[a-zA-Z0-9_]`, `\d` is `[0-9]` and
  `\s` is `[ \t\n\x0B\f\r]`, as in Java's default regular-expression mode.

`validateStep` rejects, with "Previous equation is invalid", every step
whose previous equation contains `x` and whose two sides fail to agree
within 1e-4 at one of the seven probe values of line 28, such as
`2x + 3 = 7`: `isValidEquation` is false for such an equation
(`ConditionalEquationRejected`).

`ErrorType` comes from `Models.kt:33-39`. `Models.kt` is not part of this
model beyond that enumeration.

## Model

| member | source | states |
|---|---|---|
| Cleaning.CleanRemovesSymbols | app/src/main/java/com/mathdraw/app/MathValidator.kt:262-270 | the cleaned text holds no `$`, space, `×`, `÷`, `−`, `–` or `—` |
| Cleaning.CleanSeparates | app/src/main/java/com/mathdraw/app/MathValidator.kt:273-276 | in the cleaned text no digit is followed by a letter or `(`, and no `)` by `(` or a digit |
| Cleaning.CleanTrimmed | app/src/main/java/com/mathdraw/app/MathValidator.kt:262-270 | the cleaned text neither starts nor ends with whitespace |
| Cleaning.CleanIdempotent | app/src/main/java/com/mathdraw/app/MathValidator.kt:261-278 | cleaning twice gives what cleaning once gives |
| Cleaning.InsertStarSeparates | app/src/main/java/com/mathdraw/app/MathValidator.kt:273 | after one implicit-multiplication rewrite, no adjacent pair matches that rule |
| Cleaning.InsertStarKeepsSeparated | app/src/main/java/com/mathdraw/app/MathValidator.kt:273-276 | a rewrite inserting `*` never creates a match of another of the four rules |
| Cleaning.InsertStarNoOp | app/src/main/java/com/mathdraw/app/MathValidator.kt:273-276 | a rewrite finding no match changes nothing |
| Cleaning.InsertStarEnds | app/src/main/java/com/mathdraw/app/MathValidator.kt:273-276 | a rewrite keeps the first and last characters |
| Cleaning.StripSymbolsRemoves | app/src/main/java/com/mathdraw/app/MathValidator.kt:262-270 | the literal replacements leave none of the replaced characters |
| Cleaning.ImplicitProductsChars | app/src/main/java/com/mathdraw/app/MathValidator.kt:273-276 | the four rewrites add no character other than `*` |
| Cleaning.CleanFixedPoint | app/src/main/java/com/mathdraw/app/MathValidator.kt:261-278 | text with none of the removed characters, no whitespace at either end and no implicit product left comes out of cleaning unchanged |
| Equations.ExtractEquationFound | app/src/main/java/com/mathdraw/app/MathValidator.kt:242-247 | `extractEquation` finds an equation iff the step has an `=` with a non-`=` character on each side |
| Equations.ExtractEquationOneEquals | app/src/main/java/com/mathdraw/app/MathValidator.kt:242-247 | an extracted equation holds exactly one `=` |
| Equations.SplitEquationSpec | app/src/main/java/com/mathdraw/app/MathValidator.kt:252-256 | `splitEquation` succeeds iff there is exactly one `=`, and gives the trimmed text either side of it |
| Equations.ExtractedEquationSplits | app/src/main/java/com/mathdraw/app/MathValidator.kt:71-76 | every extracted equation splits, so "Invalid equation format" cannot occur |
| MathValidator.AgreeAtAllEvery | app/src/main/java/com/mathdraw/app/MathValidator.kt:30-38 | `all` over the probes holds iff every probe agrees |
| MathValidator.EvaluateCleaned | app/src/main/java/com/mathdraw/app/MathValidator.kt:230-237 | evaluating cleaned text passes exactly that text to the evaluator |
| MathValidator.AreEquivalentMeaning | app/src/main/java/com/mathdraw/app/MathValidator.kt:15-42 | with no `x` on either cleaned side, both evaluations must succeed and be within 1e-4; otherwise both sides must succeed and agree at each of the seven probes |
| MathValidator.AreEquivalentSymmetric | app/src/main/java/com/mathdraw/app/MathValidator.kt:15-42 | `areEquivalent(a, b) == areEquivalent(b, a)` |
| MathValidator.AreEquivalentConstantsEvaluatedOnce | app/src/main/java/com/mathdraw/app/MathValidator.kt:20-25 | without `x`, only the two cleaned sides are evaluated: evaluators agreeing on those give the same answer |
| MathValidator.AreEquivalentReflexive | app/src/main/java/com/mathdraw/app/MathValidator.kt:15-42 | an expression is equivalent to itself iff every evaluation performed on it succeeds |
| MathValidator.IsValidEquationMeaning | app/src/main/java/com/mathdraw/app/MathValidator.kt:47-56 | a balanced equation has exactly one `=`, and then it is balanced iff its trimmed sides are equivalent |
| MathValidator.DetectErrorType | app/src/main/java/com/mathdraw/app/MathValidator.kt:140-155 | the classifier yields only `SIGN_ERROR`, `CALCULATION_ERROR` or nothing |
| MathValidator.HasSignErrorSwap | app/src/main/java/com/mathdraw/app/MathValidator.kt:160-180 | the sign check gives the same answer when both equations are written the other way round |
| MathValidator.CalculationLeftFailureSkipsRight | app/src/main/java/com/mathdraw/app/MathValidator.kt:185-208 | when the left side has no `x` and its evaluation throws, no calculation error is reported, and the right-hand texts do not affect the answer |
| MathValidator.SideCalculationApart | app/src/main/java/com/mathdraw/app/MathValidator.kt:188-194 | a side check answers true only when neither raw text has `x` and both values evaluate and lie more than 1e-4 apart |
| MathValidator.CalculationErrorSide | app/src/main/java/com/mathdraw/app/MathValidator.kt:185-208 | a calculation error means one side has no `x` in either raw text and its two values lie more than 1e-4 apart |
| MathValidator.DetectedSignError | app/src/main/java/com/mathdraw/app/MathValidator.kt:140-155 | `SIGN_ERROR` from `detectErrorType` means the sign check fired |
| MathValidator.DetectErrorTypeOfSameSides | app/src/main/java/com/mathdraw/app/MathValidator.kt:140-155 | an unchanged equation is never classified |
| MathValidator.MaintainsAtAllEvery | app/src/main/java/com/mathdraw/app/MathValidator.kt:115-134 | `all` over the probes holds iff the rule holds at each probe |
| MathValidator.MaintainsSolutionMeaning | app/src/main/java/com/mathdraw/app/MathValidator.kt:109-135 | the solution is kept iff at each of the six probes all four sides evaluate, and agreement before implies agreement after |
| MathValidator.MaintainsSolutionWithoutProbeSolutions | app/src/main/java/com/mathdraw/app/MathValidator.kt:126-130 | when no probe solves the previous equation, any evaluable current equation passes |
| MathValidator.ValidateEquations | app/src/main/java/com/mathdraw/app/MathValidator.kt:71-99 | valid iff no error type, with message "Step is correct"; `INCOMPLETE_STEP` iff a split fails |
| MathValidator.ValidateStep | app/src/main/java/com/mathdraw/app/MathValidator.kt:61-104 | valid iff no error type, and a valid verdict says "Step is correct" |
| MathValidator.IncompleteStepMeansNoEquation | app/src/main/java/com/mathdraw/app/MathValidator.kt:64-76 | `INCOMPLETE_STEP` iff one of the two steps has no equation |
| MathValidator.ValidEquationsMeaning | app/src/main/java/com/mathdraw/app/MathValidator.kt:71-99 | after extraction, valid iff both split, both are balanced, the classifier is silent and the solution is kept |
| MathValidator.ValidStepMeaning | app/src/main/java/com/mathdraw/app/MathValidator.kt:61-99 | a step is valid iff both equations are found and balanced, no error is classified and the solutions are kept |
| MathValidator.UnbalancedPreviousRejected | app/src/main/java/com/mathdraw/app/MathValidator.kt:79-81 | an unbalanced previous equation gives `ALGEBRAIC_MISTAKE`, "Previous equation is invalid", whatever the current step |
| MathValidator.ConditionalEquationRejected | app/src/main/java/com/mathdraw/app/MathValidator.kt:79-81 | a previous equation in `x` whose sides fail to agree within 1e-4 at one of the seven probes (such as `2x + 3 = 7`) gets that verdict |
| MathValidator.ClassifiedVerdicts | app/src/main/java/com/mathdraw/app/MathValidator.kt:88-92 | a sign error wins over a calculation error, each carries `getErrorMessage`'s text, and `WRONG_APPROACH` never occurs |
| MathValidator.ClassifierVerdict | app/src/main/java/com/mathdraw/app/MathValidator.kt:71-92 | a `SIGN_ERROR` or `CALCULATION_ERROR` verdict is reached only when both equations split and are balanced, and it is `detectErrorType`'s answer on their sides |
| MathValidator.SignErrorVerdict | app/src/main/java/com/mathdraw/app/MathValidator.kt:88-92 | a `SIGN_ERROR` verdict implies both equations are balanced and the sign check holds of their sides |
| MathValidator.CalculationErrorVerdict | app/src/main/java/com/mathdraw/app/MathValidator.kt:88-92 | a `CALCULATION_ERROR` verdict implies both equations are balanced, the sign check did not fire, and some side has no `x` in either raw text and values more than 1e-4 apart |
| MathValidator.RepeatedStepIsValid | app/src/main/java/com/mathdraw/app/MathValidator.kt:61-99 | `validateStep(S, S)` is valid when S is balanced and its sides evaluate at the six probes |
| HintGenerator.Pick | app/src/main/java/com/mathdraw/app/HintGenerator.kt:53 | `random()` returns a member of the list |
| HintGenerator.PickAt | app/src/main/java/com/mathdraw/app/HintGenerator.kt:53 | every element of the list can be returned |
| HintGenerator.ErrorTypeHint | app/src/main/java/com/mathdraw/app/HintGenerator.kt:45-93 | `getErrorTypeHint` never returns null, and a randomised type returns a phrase of its list |
| HintGenerator.GenerateHintRandomMembers | app/src/main/java/com/mathdraw/app/HintGenerator.kt:47-63 | `SIGN_ERROR`, `CALCULATION_ERROR` and `INCOMPLETE_STEP` give exactly the phrases of their 4-, 4- and 3-phrase lists |
| HintGenerator.AlgebraicMistakeHintFallback | app/src/main/java/com/mathdraw/app/HintGenerator.kt:65-73 | the generic mistake text goes to exactly the types other than LINEAR, QUADRATIC, RATIONAL and RADICAL |
| HintGenerator.WrongApproachHintFallback | app/src/main/java/com/mathdraw/app/HintGenerator.kt:75-83 | the generic approach text goes to exactly those other types |
| HintGenerator.GenerateHintAlgebraicMistake | app/src/main/java/com/mathdraw/app/HintGenerator.kt:65-73 | `ALGEBRAIC_MISTAKE` gives the problem type's entry, whatever the roll and step |
| HintGenerator.GenerateHintWrongApproach | app/src/main/java/com/mathdraw/app/HintGenerator.kt:75-83 | `WRONG_APPROACH` gives the problem type's entry, whatever the roll and step |
| HintGenerator.GenerateHintSources | app/src/main/java/com/mathdraw/app/HintGenerator.kt:26-40 | with an error, the hint depends on neither the work nor the step; without one, it is the step table's text |
| HintGenerator.ProblemTypeHintSharedSteps | app/src/main/java/com/mathdraw/app/HintGenerator.kt:98-159 | steps in the same bucket share a text; TRIGONOMETRIC, ARITHMETIC, SYSTEM and INEQUALITY ignore the step |
| HintGenerator.ProblemTypeHintFourTexts | app/src/main/java/com/mathdraw/app/HintGenerator.kt:100-133 | LINEAR, QUADRATIC and RADICAL give four distinct texts for steps 0, 1, 2 and later |
| HintGenerator.ProblemTypeHintThreeTexts | app/src/main/java/com/mathdraw/app/HintGenerator.kt:118-145 | RATIONAL and LOGARITHMIC give three distinct texts for steps 0, 1 and later |
| HintGenerator.SignedNumeralEndMeaning | app/src/main/java/com/mathdraw/app/HintGenerator.kt:218-219 | the `[-]?[0-9.]+` scanner ends exactly where a maximal signed numeral ends |
| HintGenerator.LooksLikeSolutionSound | app/src/main/java/com/mathdraw/app/HintGenerator.kt:218-219 | what the scanner accepts matches one of the two patterns |
| HintGenerator.LooksLikeSolutionComplete | app/src/main/java/com/mathdraw/app/HintGenerator.kt:218-219 | whatever matches one of the two patterns is accepted |
| HintGenerator.LooksLikeSolutionFraction | app/src/main/java/com/mathdraw/app/HintGenerator.kt:219 | `x=` with two signed numerals around a `/` is accepted |
| HintGenerator.LooksLikeSolutionSpec | app/src/main/java/com/mathdraw/app/HintGenerator.kt:214-220 | the scanner accepts exactly `x=-?[0-9.]+` and `x=-?[0-9.]+/-?[0-9.]+` |
| HintGenerator.NextStepSuggestion | app/src/main/java/com/mathdraw/app/HintGenerator.kt:164-178 | never null; the completion message iff `isLikelySolution` holds |
| HintGenerator.SubstringAfter | app/src/main/java/com/mathdraw/app/HintGenerator.kt:188 | `substringAfter("=")` is the text after the first `=`, or all of it when there is none |
| HintGenerator.DoneAtSplit | app/src/main/java/com/mathdraw/app/HintGenerator.kt:203 | with the `x` at `i`, the scanner succeeds iff the rest of the line splits as `x\s*=\s*[0-9.-]+` |
| HintGenerator.FindDoneSpec | app/src/main/java/com/mathdraw/app/HintGenerator.kt:203 | scanning from a position finds a match iff one has its `x` there or later |
| HintGenerator.FindDoneMatches | app/src/main/java/com/mathdraw/app/HintGenerator.kt:203 | the scanner decides the full match of `.*x\s*=\s*[0-9.-]+.*` |
| HintGenerator.LowerHasX | app/src/main/java/com/mathdraw/app/HintGenerator.kt:184 | the lowercased text has `x` iff the text has `x` or `X` |
| HintGenerator.SuggestNextStepNeedsX | app/src/main/java/com/mathdraw/app/HintGenerator.kt:183-209 | with no `x` in either case, `suggestNextStep` is null |
| HintGenerator.DoneMeansNoDigitAfterEquals | app/src/main/java/com/mathdraw/app/HintGenerator.kt:186-205 | "You're done!" only when no digit follows the first `=` and the pattern matches |
| HintGenerator.SolvedFormIsNotDone | app/src/main/java/com/mathdraw/app/HintGenerator.kt:188-190 | `x=` followed by digits gets "Try combining like terms…" |
| HintGenerator.StuckHintBuckets | app/src/main/java/com/mathdraw/app/HintGenerator.kt:225-240 | outside the 30000..59999 bucket the problem type does not matter; inside it, the fallback goes to exactly the types other than LINEAR, QUADRATIC and RATIONAL |
| HintGenerator.StuckHintByBucket | app/src/main/java/com/mathdraw/app/HintGenerator.kt:225-240 | for one problem type, two waits in the same time bucket get the same text |
| Symbols.MapOfSymbols | app/src/main/java/com/mathdraw/app/MathSymbolConverter.kt:11-180 | the map has no repeated key, and its keys are exactly the listed symbols |
| Symbols.MapOfValues | app/src/main/java/com/mathdraw/app/MathSymbolConverter.kt:11-180 | each key maps to the value of its last listing |
| Symbols.MapOfOrder | app/src/main/java/com/mathdraw/app/MathSymbolConverter.kt:11-180 | keys are in the order of their first listing |
| Symbols.MapOfLookup | app/src/main/java/com/mathdraw/app/MathSymbolConverter.kt:11-180 | looking up a listed symbol gives its last value |
| Symbols.SupportedSymbols | app/src/main/java/com/mathdraw/app/MathSymbolConverter.kt:250 | `getSupportedSymbols` is the table: unique keys, exactly the listed symbols, each with its last value |
| Symbols.PerpendicularIsBot | app/src/main/java/com/mathdraw/app/MathSymbolConverter.kt:132 | `⊥` maps to `\bot`, the later of its two listings |
| Symbols.PerpendicularFirstListed | app/src/main/java/com/mathdraw/app/MathSymbolConverter.kt:40 | `⊥` keeps the place of its first listing, among the relations |
| Symbols.PartialKeepsItsValue | app/src/main/java/com/mathdraw/app/MathSymbolConverter.kt:120 | `∂` maps to `\partial` |
| Symbols.NablaKeepsItsValue | app/src/main/java/com/mathdraw/app/MathSymbolConverter.kt:121 | `∇` maps to `\nabla` |
| Symbols.TrigonometricValueKept | app/src/main/java/com/mathdraw/app/MathSymbolConverter.kt:143-155 | `sin` and `arcsin` map to `\sin` and `\arcsin` |
| Symbols.SymbolMapNonEmpty | app/src/main/java/com/mathdraw/app/MathSymbolConverter.kt:11-180 | no key of the table is empty, so every `replace` is well defined |
| LatexConverter.SortByLengthSpec | app/src/main/java/com/mathdraw/app/MathSymbolConverter.kt:190 | the sort puts longer keys first, keeps every entry, and keeps map order among keys of equal length |
| LatexConverter.InsertKeepsRules | app/src/main/java/com/mathdraw/app/MathSymbolConverter.kt:190 | inserting keeps every entry |
| LatexConverter.InsertSorted | app/src/main/java/com/mathdraw/app/MathSymbolConverter.kt:190 | inserting keeps longer keys first |
| LatexConverter.InsertOfLength | app/src/main/java/com/mathdraw/app/MathSymbolConverter.kt:190 | inserting puts the new entry first among keys of its length |
| LatexConverter.SortKeepsUnique | app/src/main/java/com/mathdraw/app/MathSymbolConverter.kt:189-190 | the sorted entries still have distinct keys |
| LatexConverter.SortedRules | app/src/main/java/com/mathdraw/app/MathSymbolConverter.kt:189-190 | the sorted entries have no empty key |
| LatexConverter.ToLatex | app/src/main/java/com/mathdraw/app/MathSymbolConverter.kt:185-200 | the loop applies every sorted rule in order; the result is `$`, the pattern conversions of that, then `$` |
| LatexConverter.ApplyRulesAppend | app/src/main/java/com/mathdraw/app/MathSymbolConverter.kt:191-193 | applying two runs of rules is applying the first, then the second |
| LatexConverter.ApplyRulesAbsent | app/src/main/java/com/mathdraw/app/MathSymbolConverter.kt:191-193 | rules whose keys do not occur leave the text unchanged |
| LatexConverter.ArcsinBecomesArcSin | app/src/main/java/com/mathdraw/app/MathSymbolConverter.kt:189-193 | the symbol rules turn `arcsin` into `\arc\sin`: the `sin` rule rewrites the output of the `arcsin` rule |
| LatexConverter.ToLatexArcsin | app/src/main/java/com/mathdraw/app/MathSymbolConverter.kt:196 | the pattern conversions leave `\arc\sin` alone, so `toLatex("arcsin")` is `$\arc\sin$` |
| Patterns.RewriteNoMatch | app/src/main/java/com/mathdraw/app/MathSymbolConverter.kt:206-233 | a `Regex.replace` with no match anywhere leaves the text unchanged |
| Patterns.DigitFractionAtMeaning | app/src/main/java/com/mathdraw/app/MathSymbolConverter.kt:206 | `(\d+)/(\d+)` matches at a position iff digits, `/` and a digit start there |
| Patterns.DigitFractionAtGreedy | app/src/main/java/com/mathdraw/app/MathSymbolConverter.kt:206-208 | a match takes both digit runs whole and becomes `\frac{a}{b}` |
| Patterns.WordFractionAtMeaning | app/src/main/java/com/mathdraw/app/MathSymbolConverter.kt:211 | `([a-zA-Z]\w*)/([a-zA-Z]\w*)` matches iff a letter, word characters, `/` and a letter start there |
| Patterns.WordFractionAtGreedy | app/src/main/java/com/mathdraw/app/MathSymbolConverter.kt:211-213 | a match takes both identifiers whole and becomes `\frac{a}{b}` |
| Patterns.ScriptAtMeaning | app/src/main/java/com/mathdraw/app/MathSymbolConverter.kt:216-223 | a word character, `^` or `_`, and a word character start a match, whose whole `\w+` run is wrapped in braces |
| Patterns.SqrtAtMeaning | app/src/main/java/com/mathdraw/app/MathSymbolConverter.kt:226 | `\\sqrt\s*(\w+)` matches iff `\sqrt`, blanks and a word character start there |
| Patterns.SqrtAtGreedy | app/src/main/java/com/mathdraw/app/MathSymbolConverter.kt:226-228 | the blanks are dropped and the whole word run goes into braces |
| Patterns.AbsoluteValueAtMeaning | app/src/main/java/com/mathdraw/app/MathSymbolConverter.kt:231-233 | the absolute-value pattern matches iff a bar starts there and the next bar is not adjacent; the match runs to that bar and becomes `\left` bar, body, `\right` bar |
| Patterns.DelimitersGuarded | app/src/main/java/com/mathdraw/app/MathSymbolConverter.kt:236-237 | every `(` and `[` follows `\left`, every `)` and `]` follows `\right` |
| Patterns.BracesEscaped | app/src/main/java/com/mathdraw/app/MathSymbolConverter.kt:240-242 | without `\frac`, `^{` and `_{`, every brace follows `\left\` or `\right\`; otherwise the text is untouched |
| Patterns.BracesKeepDelimiters | app/src/main/java/com/mathdraw/app/MathSymbolConverter.kt:240-242 | escaping braces keeps the delimiters sized |
| Patterns.PatternConversionsDelimited | app/src/main/java/com/mathdraw/app/MathSymbolConverter.kt:202-245 | the converted body has every delimiter sized, and braces escaped exactly when the brace test passes |
| Patterns.PlainUnchanged | app/src/main/java/com/mathdraw/app/MathSymbolConverter.kt:202-245 | text with no markup character and no `\sqrt` passes the conversions unchanged |
| Strings.ReplaceAllNoOccurrence | app/src/main/java/com/mathdraw/app/MathSymbolConverter.kt:192 | `replace` of a key that does not occur changes nothing |
| Strings.TrimKeepsCount | app/src/main/java/com/mathdraw/app/MathValidator.kt:246 | trimming keeps every `=` |
| Strings.SplitJoin | app/src/main/java/com/mathdraw/app/MathValidator.kt:253 | joining the pieces of `split` with the separator gives back the text |
| Strings.SplitTwo | app/src/main/java/com/mathdraw/app/MathValidator.kt:253-255 | when `split("=")` gives two pieces, the text is the first piece, the `=`, then the second |

## Left out

- Evaluation by exp4j (`MathValidator.kt:232-236`) is a foreign library
  working in IEEE doubles. It is the parameter `eval`. NaN and infinity are
  not modelled. In the source, a NaN difference at line 126 falls to the
  "skip" branch, while an exception fails the probe. The model has only
  success with a real value, or failure.
- `Double.toString` of the probe values is written out as the strings the
  JVM prints (`"0.0"`, `"-1.0"`, `"0.5"`, …).
- `List.random()` is a `roll` argument. The source's random source is not
  modelled, only which phrases can come out.
- Kotlin's `lowercase()` and `toLowerCase()` are modelled on ASCII letters
  only. Other letters are left as they are.
- The outer `catch` of `validateStep` (line 101) is not modelled. Every
  failure of an evaluation is already caught further in, so no verdict
  with "Error validating step" can arise in the model.
- The `operation` parameter of `validateStep` is unused by the source, so
  it is not a parameter of the model.
- `Symbols.SupportedSymbols` does not state the size of the map.
- The subscript rule is not idempotent, because `_` is in `\w`. No
  idempotence is claimed for the pattern conversions.
- There is no lemma that no match of `(\d+)/(\d+)` survives line 206. The
  matchers are described one position at a time (`DigitFractionAtMeaning`,
  `DigitFractionAtGreedy`), with `Rewrite` as the leftmost scan.
- HintGenerator.StuckHintBuckets: states which problem types share a text
  and where the fallback goes, not the text of each branch, which the
  function body spells out. `StuckHintByBucket` covers the time.
- HintGenerator.StuckHintByBucket: states that a bucket determines the
  text, not that different buckets give different texts.
- The UI and view-model files are outside the model. These are
  `MathTutorScreen.kt`, `MathDrawScreen.kt`, `MainActivity.kt`,
  `MathTutorViewModel.kt` and `MathDrawViewModel.kt`. They cover Compose
  screens, camera and ink recognition over coroutines, and placeholder
  checks.
- `Models.kt` and `Stroke.kt` are plain data with clock defaults; only
  `ErrorType` is used.
