/** Values shared by every part of the model: JavaScript's null as an
    option, and the errors the library throws as the failure side of a result. */
module Base {

  /** `None` stands for JavaScript's `null` (or `undefined`). */
  datatype Option<+T> = None | Some(value: T)

  /** The exceptions the library lets escape to its caller. */
  datatype Error =
    | MissingRoot           // a selector lookup was given a null root
    | InconsistentSnapshot  // overlay list and word-node list differ in length
    | NullDereference       // a property was read from null or undefined (a TypeError)

  datatype Result<+T> = Ok(value: T) | Err(error: Error)
}
