/** Result type used for the operations that throw in the C++ code. */
module Wrappers {

  /** Why an operation failed; dbn-pp throws a string literal or calls `throw;`. */
  datatype Error =
    | IndexOutOfRange   // an accessor was given an index past the end
    | BadHeader         // the model file does not start with BAYES or MARKOV
    | BadVariableIndex  // a scope refers to a variable outside [0, nvars)
    | BadTableSize      // a function table's length differs from its domain size
    | BadCount          // a negative count, which makes a vector allocation throw
    | ReadFailure       // the token stream ended or held a token of the wrong kind

  datatype Result<+T> = Ok(value: T) | Err(error: Error) {
    predicate IsFailure() { Err? }
    function PropagateFailure<U>(): Result<U>
      requires Err?
    {
      Err(error)
    }
    function Extract(): T
      requires Ok?
    {
      value
    }
  }
}
