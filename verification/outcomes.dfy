/** Failure-carrying datatypes shared by the validator and the builder. */
module Outcomes {

  datatype Option<+T> = None | Some(value: T)

  /** The kinds of failure the cron builder reports. Each kind stands for one
      message text (or, for `ArraySplitThrows`, one thrown TypeError) of the
      original library; the texts themselves are not modelled. */
  datatype Error =
    | UnknownField      // measureOfTime is not one of the six field names, or the field is absent
    | BadCharacter      // the value's text does not start with one of 0-9 * -
    | RangeBottom       // bottom of a range is empty or below the field's minimum
    | RangeTop          // top of a range is empty or above the field's maximum
    | BelowMin          // leading integer of a plain value below the minimum
    | AboveMax          // leading integer of a plain value above the maximum
    | TooManyFields     // more than six tokens or keys
    | NotAnArray        // set was given something other than an array
    | AlreadyDefault    // removeValue on a field that is exactly ["*"]
    | ArraySplitThrows  // an array holding the element "-" reaches value.split: a TypeError

  /** Validation verdict: `{valid: true}` or `{valid: false, message}`. */
  datatype Outcome = Pass | Fail(error: Error)

  /** A value or an error. */
  datatype Result<+T> = Ok(value: T) | Err(error: Error)
}
