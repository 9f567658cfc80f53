/** Fixed-width integers, the error kinds of the decoder and the result of a read. */
module Base {

  type uint8 = x: int | 0 <= x < 0x100
  type uint16 = x: int | 0 <= x < 0x1_0000
  type uint32 = x: int | 0 <= x < 0x1_0000_0000

  datatype Option<+T> = None | Some(value: T)

  /** The `Error::String` values that the decoder returns through `?`. */
  datatype ErrorKind =
    | MissingMagic              // segment header does not start with "PG"
    | InvalidSegmentType        // type byte outside 0x14..0x17, 0x80
    | InvalidCompositionState   // composition state outside 0x00, 0x40, 0x80
    | InvalidPaletteUpdateFlag  // palette update flag outside 0x00, 0x80
    | InvalidCroppedFlag        // object cropped flag outside 0x00, 0x40
    | NotEnoughData             // a window-information read came back short

  /** The places where the decoder panics instead of returning an error. */
  datatype PanicKind =
    | SliceOutOfRange      // `take_slice` asked for more bytes than remain
    | FrameRateNotSixteen  // `assert!(frame_rate == 0x10)` in the composition decoder
    | RleTruncated         // `read_u8().unwrap()` at the end of an RLE stream

  datatype Error = Fail(kind: ErrorKind) | Panic(reason: PanicKind)

  datatype Result<+T> = Ok(value: T) | Err(error: Error) {
    predicate IsFailure() { Err? }
    function PropagateFailure<U>(): Result<U> requires Err? { Err(error) }
    function Extract(): T requires Ok? { value }
  }

  /** What a read starting at some position produced, and where the cursor stands after it. */
  datatype Read<+T> = Read(result: Result<T>, next: nat)
}
