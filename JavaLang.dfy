/**
 * The pieces of the Java platform that the modelled code relies on:
 * fixed-width integers, the bit pattern of a `byte`, nullable references
 * and the runtime exceptions that the modelled helpers can throw.
 */
module JavaLang {

  /** A Java `int`. */
  newtype int32 = x: int | -0x8000_0000 <= x < 0x8000_0000

  /** A Java `long`. */
  newtype int64 = x: int | -0x8000_0000_0000_0000 <= x < 0x8000_0000_0000_0000

  /**
   * The eight bits of a Java `byte`, read as an unsigned number. Java itself
   * reads the same bits as a signed value; `Signed8` gives that reading.
   */
  type uint8 = x: int | 0 <= x < 256

  function Signed8(b: uint8): (v: int)
    ensures -128 <= v < 128
    ensures v % 256 == b
  {
    if b < 128 then b else b - 256
  }

  /** A reference that may be `null`. */
  datatype Option<+T> = None | Some(value: T)

  /** A nullable `java.lang.String`. */
  type JString = Option<string>

  /** The unchecked exceptions that the modelled code can raise. */
  datatype Exception =
    | BufferUnderflow          // java.nio.BufferUnderflowException
    | BufferOverflow           // java.nio.BufferOverflowException
    | IndexOutOfBounds         // java.lang.IndexOutOfBoundsException
    | StringIndexOutOfBounds   // java.lang.StringIndexOutOfBoundsException

  /** The outcome of a call that either returns a value or throws. */
  datatype Result<+T> = Ok(value: T) | Throws(error: Exception)
}
