/** Machine types and the error outcomes shared by the C++ module and its Python wrapper. */
module Base {

  /** An element of a numpy uint8 array: the adjacency matrices and the engine's 0/1 output. */
  type Byte = x: int | 0 <= x < 0x100

  /** A numpy int32 / C `int`: the vertex weights and the integer parameters of the C++ entry point. */
  type Int32 = x: int | -0x8000_0000 <= x < 0x8000_0000

  /** The exceptions a call can end with. */
  datatype Error =
    | RuntimeError(message: string)     // a std::runtime_error thrown by the C++ module
    | AssertionError(message: string)   // a failed Python `assert` ("" when it carries no message)
    | ValueError                        // numpy: `min()` of a zero-size array
    | IndexError                        // numpy: an index array that points outside an axis

  datatype Option<T> = None | Some(value: T)

  datatype Result<T> = Success(value: T) | Failure(error: Error)
}
