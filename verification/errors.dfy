/** The Python exceptions the converter's core can raise. */
module Errors {
  datatype Error =
    /** A dict lookup in a type map missed: `KeyError(str(dtype))`. */
    | KeyError(key: string)
    /** `range(0, rows, 0)`: "range() arg 3 must not be zero" (a ValueError). */
    | ZeroStep
}
