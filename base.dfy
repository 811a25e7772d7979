/** Small shared vocabulary: optional values and the Python exceptions
    that the modelled code can raise. */
module Base {

  datatype Option<+T> = None | Some(value: T)

  /** Exceptions raised by the modelled Python code (or by the library
      calls it makes) that reach its caller. */
  datatype PyError =
    | ValueError         // int() on a literal such as "1.5"
    | OverflowError      // timedelta with more than 999999999 days
    | IndexError         // duration[0] on an empty list of submitted values
    | FileNotFoundError  // os.remove on an image file that is not stored
    | ZeroDivisionError  // a comments-per-page setting of 0
}
