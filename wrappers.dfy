/** Option and Result values, and the Python exception kinds that the modelled
    functions raise. A raised exception is modelled as an `Err` result. */
module Wrappers {

  datatype Option<+T> = None | Some(value: T)

  datatype Result<+T, +E> = Ok(value: T) | Err(error: E)

  /** The exception classes the modelled code can raise. */
  datatype Exception =
    | ValueError        // bad argument value, failed strptime, bad coordinate
    | KeyError          // dictionary lookup of a missing key
    | IndexError        // list / sheet index out of range
    | OverflowError     // date or timedelta out of range
    | UnboundLocalError // a local variable read before assignment
    | AddressError      // the spreadsheet application rejects a cell address
    | PlainException    // a bare `Exception` raised with a message
}
