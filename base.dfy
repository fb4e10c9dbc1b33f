/** Small shared vocabulary: optional values, bytes, C strings. */
module Base {

  /** A value that may be absent (a NULL pointer in the C code). */
  datatype Option<T> = None | Some(value: T)

  /** One octet on the wire or in a file. */
  newtype byte = b: int | 0 <= b < 256

  /** A NUL-terminated C string, seen without its terminator. */
  type CString = s: string | '\0' !in s

  function Min(a: int, b: int): int { if a <= b then a else b }
}
