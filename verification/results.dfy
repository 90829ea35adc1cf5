/** Failure-carrying values shared by the validator model. */
module Results {

  /** An optional value: a Java reference that may be null, or the outcome
      of a walk that either fails or yields a value. */
  datatype Option<+T> = None | Some(value: T)

  /** The exceptions the validator can raise. None of them is an "invalid
      solution": that is the boolean `false`. */
  datatype Fault =
    | DivisionByZero      // ArithmeticException from an int division
    | NegativeArraySize   // NegativeArraySizeException from an allocation
    | NullSolution        // NullPointerException("Null solution")
    | NullHeader          // NullPointerException("Null blockHeader")
    | NullNonce           // NullPointerException("Null nonce")

  /** Either the value a Java call returns or the exception it throws. */
  datatype Result<+T> = Ok(value: T) | Err(fault: Fault)
}
