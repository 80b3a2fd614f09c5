/** Outcomes of the engine's operations: a value, or the exception the C# code would throw. */
module Wrappers {

  /** The exceptions the numerical engine raises, named after the C# exception (or its message). */
  datatype Error =
    | ArgumentError        // System.ArgumentException thrown by an explicit size check
    | SingularMatrix       // System.ArgumentException("матрица вырождена") thrown by pivot selection
    | ArgumentOutOfRange   // System.ArgumentOutOfRangeException: explicit size check or List<T> indexer
    | IndexOutOfRange      // System.IndexOutOfRangeException: array indexer
    | OutOfFuel            // the model's bound on step-size halvings was exhausted (no C# counterpart)

  datatype Result<+T> = Ok(value: T) | Err(error: Error) {

    predicate IsFailure() {
      Err?
    }

    function PropagateFailure<U>(): Result<U>
      requires Err?
    {
      Err(error)
    }

    function Extract(): T
      requires Ok?
    {
      value
    }
  }
}
