/** Outcomes of the codec operations.  The C# code signals failure by throwing;
    here every operation that can throw returns a `Result` whose `Fail` case
    names the .NET exception type that would have escaped. */
module Failures {

  datatype Error =
    | EmptyInput    // ArgumentException: a decoder was given blank text
    | InvalidFormat // FormatException: the text is not in the codec's format
    | Overflow      // OverflowException: a decimal code does not fit in a byte
    | KeyNotFound   // KeyNotFoundException: a dictionary lookup missed

  datatype Result<T> = Ok(value: T) | Fail(error: Error)

  datatype Option<T> = None | Some(value: T)
}
