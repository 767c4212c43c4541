/** Machine types, constants and error kinds shared by the chunk reader and the hash folder. */
module Types {

  /** A byte, as Go's `byte`. */
  newtype uint8 = x: int | 0 <= x < 256

  /** Go's `uint64`. */
  newtype uint64 = x: int | 0 <= x < 0x1_0000_0000_0000_0000

  const TwoTo64: int := 0x1_0000_0000_0000_0000

  /** Largest value of Go's `int64`. */
  const MaxInt64: int := 0x7fff_ffff_ffff_ffff

  /** `OSDBChunkSize`: the size of the head and of the tail span (64 KiB). */
  const OSDBChunkSize: nat := 65536

  datatype Option<T> = None | Some(value: T)

  /** Kinds of failure; the model keeps the kind of each Go error, not its message. */
  datatype Error =
    | OpenError          // os.Open failed
    | StatError          // File.Stat failed
    | NetworkError       // request could not be built, transport failure or timeout
    | RangeUnsupported   // no "Accept-Ranges: bytes" on the HEAD response
    | MalformedResponse  // Content-Length did not parse as an int64
    | SourceTooSmall     // fileSize < minimumRequiredSize
    | ShortRead          // a span read returned fewer bytes than needed
    | DecodeError        // the buffer is too short for the word array
    | RuntimePanic       // a Go runtime panic (index out of range on a header slice)

  datatype Result<T> = Ok(value: T) | Err(error: Error)

  /** Go's `uint64(x)` conversion of a signed integer: two's complement, i.e. x modulo 2^64. */
  function ToUint64(x: int): (r: uint64)
    ensures 0 <= x < TwoTo64 ==> r as int == x
    ensures -TwoTo64 <= x < 0 ==> r as int == x + TwoTo64
  {
    (x % TwoTo64) as uint64
  }

  /** Go's `a + b` on uint64: addition with wrap-around. */
  function AddWrap(a: uint64, b: uint64): (r: uint64)
    ensures a as int + b as int < TwoTo64 ==> r as int == a as int + b as int
    ensures TwoTo64 <= a as int + b as int ==> r as int == a as int + b as int - TwoTo64
  {
    ((a as int + b as int) % TwoTo64) as uint64
  }
}
