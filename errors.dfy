/** The exceptions the converter raises, as values. */
module Errors {

  datatype Error =
    | UnknownType(code: int)       // TypeError: a type code that is not in the table
    | UnsupportedType              // ValueError: a known type the converter does not handle
    | StructError                  // struct.error: too few bytes, or a value outside its format
    | AssertionFailed              // an `assert` statement of the converter failed
    | IndexError                   // indexing past the end of a list or string
    | KeyError                     // a missing dictionary key
    | TypeMismatch                 // TypeError: a value of the wrong Python type
    | VarcharTooLong               // ValueError: VARCHAR text longer than the declared length
    | CharTooLong                  // CHAR text too long; the raise itself fails on an undefined name
    | DecimalPrecision             // Exception: DECIMAL precision above 18
    | DecimalMalformed             // ValueError: more than one '.' or no digit at all
    | DecimalOverflow              // ValueError: too many integer or fraction digits
    | NotAnInteger                 // ValueError from int()
    | DateMalformed                // AttributeError: the text is not a recognisable date
    | DateMonth                    // AttributeError: month above 12
    | FrameOverflow                // OverflowError: parcel length limit
    | RowOverflow                  // Exception: offset ran past the row length while decoding
    | UndefinedHeader              // Exception: a CSV header that names no column
    | MissingColumns               // Exception: the CSV row has fewer fields than columns
    | TooManyColumns               // Exception: the CSV row has more fields than columns
    | NullOnNonNullable            // ValueError: empty value in a NOT NULL column
    | NoPrepInfo                   // Exception: the PrepInfo parcel is empty
    | NoColumns                    // Exception: the PrepInfo parcel lists no columns
    | FloatNotModelled             // converting text to an IEEE double is not part of this model

  datatype Result<+T> = Ok(value: T) | Err(error: Error) {
    predicate IsFailure() { Err? }

    function PropagateFailure<U>(): Result<U>
      requires Err?
    {
      Err(error)
    }

    function Extract(): T
      requires Ok?
    {
      value
    }
  }

  /** The outcome of an operation that returns nothing (Python `None`) or raises. */
  datatype Outcome = Pass | Fail(error: Error) {
    predicate IsFailure() { Fail? }

    function PropagateFailure<U>(): Result<U>
      requires Fail?
    {
      Err(error)
    }
  }

  datatype Option<+T> = None | Some(value: T)
}
