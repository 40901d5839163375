/** Error values and the Option/Result carriers used by every collection. */
module Results {

  /** The errors the collections report. */
  datatype Error =
    | BucketNotFound  // "bucket_not_found"
    | KeyNotFound     // "key_not_found"
    | Overflow        // "overflow number": an increment left the uint64 range
    | OddArguments    // "kvs len must is an even number"
    | Malformed       // a B254 digit byte is 0x00 or 0x01

  datatype Option<+T> = None | Some(value: T)

  datatype Result<+T> = Ok(value: T) | Err(error: Error)
}
