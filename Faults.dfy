/** The .NET exceptions the core throws, each with the parameter name it
    carries. A single-argument `ArgumentOutOfRangeException(s)` takes `s` as
    its parameter name, while a single-argument `ArgumentException(s)` takes
    `s` as its message and has no parameter name (written "" here). */
module Faults {

  datatype Fault =
    | ArgumentNull(paramName: string)
    | ArgumentOutOfRange(paramName: string)
    | Argument(paramName: string)
    | NotSupported
    | NullReference
    | Overflow  // System.OverflowException: a decimal result outside decimal's range
}
