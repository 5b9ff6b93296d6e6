/** Option, outcome and result types, and the validation errors the builder raises. */
module Results {

  datatype Option<T> = None | Some(value: T)

  /** The InvalidArgumentException cases of the builder, one per distinct check. */
  datatype Error =
    | EmptyFieldName            // a criteria's field name is ''
    | FuzzyDistanceOutOfBounds  // fuzzy distance given and outside [0, 1]
    | SlopNotPositive           // sloppy distance <= 0
    | SloppySingleTerm          // sloppy phrase without any space
    | NegativeBoost             // boost < 0
    | NegativeDistance          // geo radius < 0
    | BlanksInPattern           // startsWith/endsWith term whose first space is not at index 0

  /** The result of a call that either completes or throws. */
  datatype Outcome = Pass | Fail(error: Error)

  /** The result of a call that returns a value or throws. */
  datatype Result<T> = Ok(value: T) | Err(error: Error)
}
