/** Values shared by every module of the model: octets and the two
    failure-carrying wrappers that replace Python's None and exceptions. */
module Common {

  /** One octet, as in Python's `bytes`. */
  type byte = bv8

  type Bytes = seq<byte>

  /** Python's `None` versus a present value. */
  datatype Option<+T> = None | Some(value: T)

  /** A value, or the error a Python call would have raised instead. */
  datatype Result<+T, +E> = Ok(value: T) | Err(error: E)
}
