/** Values shared by the whole model: optional values, Python exceptions
    (reduced to the handler family that catches them and their message),
    and the outcome of a call that may raise. */
module Outcome {

  datatype Option<+T> = None | Some(value: T)

  /** Which of the scanner's `except` clauses an exception class falls into.
      A class that inherits from OSError and from another family is recorded
      as OSError, and one that inherits from ValueError and IndexError as
      ValueError: both handlers that see such a class treat it as that
      family. A class inheriting from IndexError and TypeError but not from
      OSError or ValueError has no value here (the probe handler catches it
      as an IndexError, the outer handlers as a TypeError) and is not
      modelled. */
  datatype ExcClass =
    | OSErrorClass      // OSError and IOError, with subclasses such as FileNotFoundError
    | ValueErrorClass   // ValueError and its subclasses
    | TypeErrorClass    // TypeError and its subclasses
    | IndexErrorClass   // IndexError
    | OtherClass        // every other subclass of Exception

  /** A raised exception: its family and `str(e)`. */
  datatype PyError = PyError(cls: ExcClass, msg: string)

  /** The outcome of a library call that returns a value or raises. */
  datatype Attempt<+T> = Done(value: T) | Raised(err: PyError)
}
