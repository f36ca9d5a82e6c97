/** Small shared vocabulary: bytes, optional values, results and the
    PKCS#11 return codes this layer produces. */
module Types {

  newtype byte = x: int | 0 <= x < 256

  datatype Option<+T> = None | Some(value: T)

  /** The PKCS#11 return values (CK_RV) that the session layer reports.
      Their numeric encoding belongs to the ABI boundary and is not modelled. */
  datatype Rv = Ok | ArgumentsBad | DeviceError | OperationActive

  /** A Rust `Result<T, CK_RV>`. */
  datatype Result<+T> = Success(value: T) | Failure(error: Rv)
}
