/** Shared vocabulary: fixed-width machine integers, the GDI rectangle and the
    failure-carrying wrappers the other modules return instead of panicking or
    using null. */
module Base {

  /** Rust `u8`. */
  newtype u8 = x: int | 0 <= x < 0x100

  /** Rust `u16` (a UTF-16 code unit, `WCHAR`). */
  newtype u16 = x: int | 0 <= x < 0x1_0000

  /** The byte `b'\n'`. */
  const NEWLINE: u8 := 10

  /** The GDI `RECT`, with unbounded coordinates. */
  datatype Rect = Rect(left: int, top: int, right: int, bottom: int)

  datatype Option<+T> = None | Some(value: T)

  datatype Result<+T, +E> = Ok(value: T) | Err(error: E)

  function Min(a: int, b: int): int { if a <= b then a else b }
}
