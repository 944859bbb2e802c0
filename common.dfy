/** Types shared by every part of the settings model: the .NET integer widths, the
    exceptions the store can raise, and the Option/Result wrappers that carry them. */
module Common {

  /** System.Int32 */
  type int32 = x: int | -0x8000_0000 <= x < 0x8000_0000
  /** System.Int64 */
  type int64 = x: int | -0x8000_0000_0000_0000 <= x < 0x8000_0000_0000_0000
  /** System.Byte */
  type byte = x: int | 0 <= x < 0x100

  predicate IsInt32(x: int) { -0x8000_0000 <= x < 0x8000_0000 }
  predicate IsInt64(x: int) { -0x8000_0000_0000_0000 <= x < 0x8000_0000_0000_0000 }

  /** A reference that may be null. */
  datatype Option<+T> = None | Some(value: T)

  /** The exceptions a settings operation can end with. */
  datatype StoreError =
    | Disposed         // ObjectDisposedException
    | ReadOnly         // InvalidOperationException: store opened read-only
    | UnsupportedType  // ArgumentException from CheckType
    | EmptySequence    // InvalidOperationException from Aggregate on an empty array
    | InvalidCast      // InvalidCastException from Convert.ToInt32/ToInt64
    | Overflow         // OverflowException from Convert.ToInt32/ToInt64
    | Format           // FormatException
    | ArgumentNull     // ArgumentNullException

  /** The outcome of an operation: its value, or the exception it threw. */
  datatype Result<+T> = Ok(value: T) | Err(error: StoreError)
}
