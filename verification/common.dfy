/** Small shared vocabulary: optional values, fallible results and bytes. */
module Common {

  /** An optional value, as Rust's `Option`. */
  datatype Option<+T> = None | Some(value: T)

  /** A value or an error, as Rust's `Result`; usable with `:-`. */
  datatype Result<+T, +E> = Ok(value: T) | Err(error: E) {
    predicate IsFailure() {
      Err?
    }

    function PropagateFailure<U>(): Result<U, E>
      requires Err?
    {
      Err(error)
    }

    function Extract(): T
      requires Ok?
    {
      value
    }
  }

  /** An unsigned byte. */
  type uint8 = x: int | 0 <= x < 256

  /** An unsigned 64-bit integer, as Rust's `u64`. */
  type uint64 = x: int | 0 <= x < 0x1_0000_0000_0000_0000
}
