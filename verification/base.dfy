/** Small failure-carrying datatypes shared by every module of the model. */
module Base {

  /** A value that may be absent: JavaScript's `undefined`/`null` versus a present value. */
  datatype Option<+T> = None | Some(value: T)

  /** The outcome of a step that can be refused with an error value. */
  datatype Result<+T, +E> = Ok(value: T) | Err(error: E)

  /** A point in time as a JavaScript `Date` holds it: milliseconds since the epoch.
      Its JSON form (an ISO-8601 string) is abstracted away. */
  type Timestamp = int

  /** The status union shared by the registration form and the admin login form:
      `"idle" | "submitting" | "success" | "error"`. */
  datatype FormStatus = Idle | Submitting | Success | Error
}
