/** Optional values, and results that carry the crate's error enum. */
module Wrappers {

  datatype Option<+T> = None | Some(value: T)

  /** The variants of the crate's error type; message texts are not modelled. */
  datatype Error = Crypto | Key | Pkcs11 | Unsupported

  datatype Result<+T> = Ok(value: T) | Err(error: Error)
}
