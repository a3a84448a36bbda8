/** Option, Result and Outcome for the failures the program can raise. */
module Wrappers {

  datatype Option<+T> = None | Some(value: T)

  /** The exceptions and protocol failures the modelled code can end with. */
  datatype Error =
    | StructError        // struct.unpack('I', ...) given a buffer that is not 4 bytes long
    | ZeroDivision       // Python's // or / with a zero divisor
    | IdsExhausted       // the client's resource-id range has no id left
    | MissingBackground  // no current background pixmap to fade from
    | NoRootVisual       // the root visual is not among the screen's visuals
    | NegativeSleep      // time.sleep given a negative duration (ValueError)

  datatype Result<+T> = Ok(value: T) | Err(error: Error)

  datatype Outcome = Pass | Fail(error: Error)
}
