/** Small value wrappers shared by the whole model: an optional value (Java's
    nullable reference or Optional) and a success-or-error result (a method
    that either returns or throws). */
module Common {

  datatype Option<T> = None | Some(value: T)

  datatype Result<T, E> = Ok(value: T) | Err(error: E)
}
