/** The library's error-handler protocol.  Every entry point reports each
    problem to the installed handler as (error_type, message); error_type 0
    is a warning and anything else an error.  The model returns the reports
    an operation makes, in order, instead of calling a handler. */
module Diagnostics {

  const WARNING: int := 0
  const ERROR: int := 1

  datatype Report = Report(errorType: int, message: string)

  /** The element type of the float and double variants of the codec. */
  datatype Precision = Single | Double

  function TypeName(p: Precision): string {
    if p == Single then "float" else "double"
  }
}
