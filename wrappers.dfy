/** Failure outcomes shared by the codec. Each `Error` stands for one exception (or one
    undefined access) of the C++ library; `Result` carries either a value or that error and
    supports Dafny's `:-` so that an error aborts the enclosing operation like a throw. */
module Wrappers {

  datatype Error =
    | OutOfBounds              // ByteReader::read: "index out of bounds"
    | Overrun                  // a raw read past the end of the input after an unchecked advance
    | NegativeCount            // std::vector constructed with a negative element count
    | PartialCharacter         // "malformed input: partial character at end"
    | MalformedAround(at: int) // "malformed input around byte <at>"
    | TypeMismatch             // typeCheck: "object type does not match requested type"
    | InvalidType              // getValueSize: "invalid nbt type"
    | ShortRead                // an std::istream delivered fewer bytes than requested
    | BufferOverflow           // OutputVectorBuffer::xsputn copying past the end of its vector

  datatype Result<+T> = Ok(value: T) | Err(error: Error) {
    predicate IsFailure() { Err? }

    function PropagateFailure<U>(): Result<U>
      requires Err?
    {
      Err(error)
    }

    function Extract(): T
      requires Ok?
    {
      value
    }
  }

  datatype Option<+T> = None | Some(value: T)
}
