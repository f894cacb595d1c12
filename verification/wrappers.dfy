/** Failure-carrying datatypes shared by every module of the model.

    The original program signals failure in two ways: by returning Python's
    `None`, and by raising one of a handful of built-in exceptions.  `Option`
    models the first, `Result` with a `PyError` models the second.
 */
module Wrappers {

  datatype Option<+T> = None | Some(value: T)

  /** The built-in exceptions the modelled code can raise. */
  datatype PyError =
    | IndexError      // an index or position outside an array or list
    | ValueError      // a bad shape, an empty reduction, an unparsable date
    | TypeError       // unpacking `None`, arithmetic on a slice
    | KeyError        // a timestamp missing from an index
    | ZeroDivisionError
    | OverflowError   // a date moved outside the representable range
    | CvError         // `cv2.error`: an OpenCV call given no frame
    | AttributeError  // a method called on `None`

  datatype Result<+T> = Ok(value: T) | Err(error: PyError)
}
