/** Error kinds raised by the ELF codec and the result wrappers that carry them. */
module Results {

  /** What the codec can fail with.
      BadMagic: the first four bytes are not the ELF signature.
      NoClass, NoEncoding: the class or data byte names no known layout.
      Truncated: fewer bytes remain than a fixed-size region needs (struct.error).
      FieldRange: a field value does not fit its width when packing (struct.error). */
  datatype Error = BadMagic | NoClass | NoEncoding | Truncated | FieldRange

  datatype Option<+T> = None | Some(value: T)

  datatype Result<+T> = Ok(value: T) | Err(error: Error) {
    predicate IsFailure() { Err? }

    function PropagateFailure<U>(): Result<U>
      requires Err?
    {
      Err(error)
    }

    function Extract(): T
      requires Ok?
    {
      value
    }
  }

  /** The outcome of an operation that changes state and computes nothing else. */
  datatype Outcome = Pass | Fail(error: Error)
}
