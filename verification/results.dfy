/** Outcome of a computation that can fail, and the ways the ISO 7064
    check-character engine fails. Every failure ends the computation: there is
    no partial result. */
module Results {

  /** Why no result was produced. */
  datatype Error =
    /** The value to check is empty (the calculators return nil). */
    | EmptyInput
    /** A character of the upcased value is not in the alphabet
        (`char_set.index` gives nil and the following addition raises). */
    | InvalidCharacter(c: char)
    /** The alphabet size resolves to no supported radix (the resolver raises). */
    | InvalidCharacterSet(size: nat)
    /** A check value has no character in the alphabet (`char_set[k]` gives nil
        and the string concatenation raises). */
    | UnencodableCheckDigit(index: int)
    /** The verifier as written names an undefined identifier (NameError). */
    | UndefinedName

  /** A value or the error that prevented it; usable with `:-`. */
  datatype Result<+T> = Success(value: T) | Failure(error: Error) {

    predicate IsFailure() {
      Failure?
    }

    function PropagateFailure<U>(): Result<U>
      requires Failure?
    {
      Failure(error)
    }

    function Extract(): T
      requires Success?
    {
      value
    }
  }
}
