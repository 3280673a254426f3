/** The error classification shared by the validator and the hint selector
    (Models.kt:33-39). */
module Models {

  datatype ErrorType =
    | AlgebraicMistake
    | SignError
    | CalculationError
    | WrongApproach
    | IncompleteStep
}
