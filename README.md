# PGS subtitle decoder, modelled in Dafny

This project models the decoder of Presentation Graphic Stream files (`.sup`,
the image subtitles of Blu-ray discs) found in `src/pgs/`. The decoder reads
a stream of segments. Each segment is a 13-byte header (magic `"PG"`,
big-endian presentation and decoding timestamps, a type byte, a size) followed
by a payload:

- a presentation composition segment (PCS): 11 fixed bytes, then
  `number_of_composition_objects` window-information records of 8 bytes, 16
  when the record's cropped flag is 0x40;
- a window definition segment (WDS);
- a palette definition segment (PDS);
- an object definition segment (ODS), whose 24-bit length field says how many
  bytes of bitmap follow;
- an end segment, with no payload.

Object bitmaps are run-length encoded; `decode_rle` expands them into
palette indices.

Modules, one per part of the source:

- `Base` (`base.dfy`): byte-sized integer types, `Option`, `Result`, and the
  errors. `Fail` is a returned `Err`. `Panic` is a panic from `unwrap`,
  `assert!` or a slice out of range.
- `BigEndian` (`big_endian.dfy`): `u16::from_be_bytes`, `u32::from_be_bytes`
  and their inverses.
- `U24` (`u24.dfy`): the `u24` type of `src/pgs/u24.rs`.
- `Rle` (`rle.dfy`): `decode_rle`. It is an imperative method with the
  source's cursor and pushing loops, proved equal to the function
  `DecodeFrom`. Encoders of units are proved inverse to the decoder.
  Bit 7 of a run's control byte asks for a colour byte and bit 6 for a
  second length byte, so `[0x00, 0x85, 0x09]` is a short run of five pixels
  of colour 9 (`Rle.ShortRunExample`).
- `Buffer` (`buffer.dfy`): the in-memory cursor `BufferMngr`. `take_slice`
  returns `buffer[cursor..cursor+count]` and advances the cursor, and it
  panics when the bytes are not there. `ReadUpTo` is the short read that
  `read_window_info` does through `io::Read`.
- `Composition` (`composition.dfy`): `CompositionState::try_from` and
  `read_window_info` from `src/pgs/mod.rs`.
- `Segment` (`segment.dfy`): `SegmentType::try_from`, `presentation_time`,
  `read_header`, `read_pcs`, `read_wds`, `read_pds` and `read_ods`.
- `Pgs` (`run.dfy`): the loop of `run`, which reads a header, prints it,
  dispatches on the segment type and prints the payload.

Every `read_*` is a method on the cursor. Each one is proved equal to a
function `XAt(data, pos)`, which returns the decoded value or error together
with where the cursor ends (`Base.Read`). The properties are lemmas about
these functions:

- exactly which bytes are accepted, and which error comes first;
- how many bytes each read consumes;
- round trips with an encoder, in both directions.

The model follows the code as written, including where the code departs from
the PGS format. Each departure is stated as a lemma:

- a literal RLE byte pushes the constant 1 (`Rle.LiteralPushesOne`);
- `u24::from_u32` is not the inverse of `to_u32` (`U24.FromU32NotInverse`);
- `read_wds` takes 11 bytes and decodes 10 (`Segment.WdsIgnoresEleventhByte`,
  `Pgs.StandardWdsMisaligns`);
- `read_pds` reads one palette entry (`Segment.PdsReadsOneEntry`,
  `Pgs.StandardPdsMisaligns`);
- `read_ods` reads the whole declared length after its 11-byte header
  (`Segment.OdsDeclaredLengthOverreads`).

The `run` loop never leaves through `Ok`. An input laid out as the decoder
reads it is printed segment by segment, and then the next header read panics
at the end of the input (`Pgs.RunOfEncoding`).

In `run`, the calls at `src/pgs/mod.rs:96` and `src/pgs/mod.rs:100` pass the
segment size to `read_pds` and `read_ods`, but those functions take only the
buffer. The model follows the signatures in `src/pgs/segment.rs`, so the
size is not used.

## Model

| member | source | states |
|---|---|---|
| BigEndian.U16RoundTrip | src/pgs/segment.rs:94 | decoding the two big-endian bytes of a 16-bit value gives the value back |
| BigEndian.Bytes16RoundTrip | src/pgs/segment.rs:94 | re-encoding a decoded 16-bit field gives the same two bytes |
| BigEndian.U32RoundTrip | src/pgs/segment.rs:91-92 | decoding the four big-endian bytes of a 32-bit value gives the value back |
| BigEndian.Bytes32RoundTrip | src/pgs/segment.rs:91-92 | re-encoding a decoded 32-bit field gives the same four bytes |
| BigEndian.U16 | src/pgs/segment.rs:94 | `u16::from_be_bytes`; `BigEndian.U16RoundTrip` and `BigEndian.Bytes16RoundTrip` prove it inverse to the two-byte encoder in both directions |
| BigEndian.U32 | src/pgs/segment.rs:91-92 | `u32::from_be_bytes`; `BigEndian.U32RoundTrip`, `BigEndian.Bytes32RoundTrip` and `BigEndian.U32Value` give its inverse and its positional value |
| BigEndian.U32Value | src/pgs/u24.rs:17 | `u32::from_be_bytes([a,b,c,d])` is `a*2^24 + b*2^16 + c*2^8 + d` |
| U24.From | src/pgs/u24.rs:26-30 | `From<[u8; 3]>` keeps the three bytes unchanged and in order |
| U24.ToU32 | src/pgs/u24.rs:15-18 | `to_u32` of `[a,b,c]` is `a*65536 + b*256 + c`, always below 2^24 |
| U24.FromU32 | src/pgs/u24.rs:19-23 | `from_u32(n)` needs `n < 2^24` (the debug assertion) and stores `[n mod 256, (n/256) mod 256, n/65536]`, little-endian |
| U24.ToU32OfFrom | src/pgs/u24.rs:26-30 | `to_u32(from(x))` is the big-endian value of `x`, below 2^24 |
| U24.FromU32SwapsOuterBytes | src/pgs/u24.rs:15-23 | `to_u32(from_u32(n))` is `n` with its low and high bytes exchanged |
| U24.FromU32RoundTripIff | src/pgs/u24.rs:15-23 | `to_u32(from_u32(n)) == n` exactly when the low and high bytes of `n` are equal |
| U24.FromU32NotInverse | src/pgs/u24.rs:19-23 | concrete counterexample: `to_u32(from_u32(1))` is 65536 |
| U24.FromU32Be | src/pgs/u24.rs:19-23 | corrected conversion: `to_u32(FromU32Be(n)) == n` for every `n < 2^24` |
| U24.FromU32BeRoundTrip | src/pgs/u24.rs:15-23 | the corrected conversion is also a left inverse: `FromU32Be(to_u32(x)) == x` |
| Rle.IsColor | src/pgs/rle.rs:64-66 | `byte >> 7 == 1` holds exactly when the byte is at least 0x80 |
| Rle.IsLong | src/pgs/rle.rs:68-70 | `(byte >> 6) & 1 == 1` holds exactly when the low seven bits are at least 0x40 |
| Rle.LenBits | src/pgs/rle.rs:34 | `info & 0b0011_1111` is below 0x40 and differs from `info` by a multiple of 0x40: the low six bits |
| Rle.DecodeFrom | src/pgs/rle.rs:11-60 | the only error of the decoding is the truncation panic; `Rle.DecodeIsAllPixels`, `Rle.DecodeAdvance` and `Rle.DecodeOfEncoding` carry what its output is |
| Rle.Repeat | src/pgs/rle.rs:57-59 | the `for` loop pushes exactly `len` copies of the run colour |
| Rle.UnitAt | src/pgs/rle.rs:17-54 | a unit that is read moves the cursor forward and stays inside the data; the only failure is the `unwrap` panic of a truncated unit |
| Rle.RunAt | src/pgs/rle.rs:32-54 | the rest of a run is read within the data; the only failure is the truncation panic |
| Rle.ReadUnit | src/pgs/rle.rs:17-54 | the cursor reads of one loop pass (first byte, control byte, low length byte, colour byte) give exactly `UnitAt`; the `assert_eq!(len_u8 >> 6, 0)` is proved never to fail |
| Rle.DecodeRle | src/pgs/rle.rs:5-62 | the cursor loop with `break`, `continue` and the inner `for` produces exactly `DecodeFrom(data, 0)`: the pixels of all units in order, or the truncation panic |
| Rle.UnitAtEncodes | src/pgs/rle.rs:17-54 | a unit that is read is well formed and the bytes it consumed are exactly its encoding |
| Rle.ControlByteOf | src/pgs/rle.rs:32-35 | the colour bit, long bit and 6 length bits of a control byte rebuild that byte |
| Rle.ControlByteBits | src/pgs/rle.rs:64-70 | `is_color`, `is_long` and the `0x3F` mask recover the colour flag, long flag and high length bits a control byte was built from |
| Rle.UnitAtOfEncoding | src/pgs/rle.rs:17-54 | the encoding of a well-formed unit is read back as that unit, consuming exactly its bytes |
| Rle.DecodeTruncated | src/pgs/rle.rs:17-54 | a unit cut short ends the whole decoding in the panic, whatever was already output |
| Rle.DecodeAdvance | src/pgs/rle.rs:11-60 | decoding one unit moves exactly its pixels from the rest of the decoding to the output |
| Rle.DecodeIsAllPixels | src/pgs/rle.rs:11-60 | decoding succeeds exactly when the scan into units does, and the output is the in-order concatenation of each unit's pixels |
| Rle.UnitsFromEncodes | src/pgs/rle.rs:11-60 | the units scanned from the data are well formed and re-encode to exactly the data |
| Rle.UnitsFromOfEncoding | src/pgs/rle.rs:11-60 | the encoding of well-formed units is scanned back into those units |
| Rle.DecodeOfEncoding | src/pgs/rle.rs:5-62 | decoding an encoded unit sequence gives the concatenation of the units' pixels |
| Rle.DecodeEmpty | src/pgs/rle.rs:11-14 | empty input gives empty output |
| Rle.LiteralPushesOne | src/pgs/rle.rs:17-22 | a non-zero byte is a one-byte unit that pushes the constant 1, not its own value: `[0x07]` gives `[1]` |
| Rle.LineEndPushesNothing | src/pgs/rle.rs:25-29 | `0x00 0x00` pushes nothing and moves the cursor by exactly two |
| Rle.ShortRunExample | src/pgs/rle.rs:40-54 | `[0x00, 0x85, 0x09]` gives five pixels of colour 9 |
| Rle.LongRunExample | src/pgs/rle.rs:40-47 | `[0x00, 0x41, 0x02]` gives 258 pixels of the default colour 0 |
| Rle.TruncatedExamples | src/pgs/rle.rs:17-54 | a unit cut after `0x00`, before its low length byte or before its colour byte panics |
| Rle.RunShape | src/pgs/rle.rs:40-54 | a run is shorter than 16384 pixels, and its unit takes 2 bytes, plus 1 for the long bit and 1 for the colour bit |
| Buffer.SliceAt | src/pgs/mod.rs:69-74 | `take_slice(count)` succeeds exactly when `count` bytes remain, returns `buffer[cursor..cursor+count]` and advances by `count`; otherwise it panics in `split_at` |
| Buffer.ReadUpToAt | src/pgs/mod.rs:161-164 | a read of up to `count` bytes returns the bytes that remain, at most `count`, and advances past them |
| Buffer.BufferMngr.constructor | src/pgs/mod.rs:63-68 | the whole input is loaded and the cursor is at 0 |
| Buffer.BufferMngr.TakeSlice | src/pgs/mod.rs:69-74 | the method's result and new cursor are those of `SliceAt` |
| Buffer.BufferMngr.ReadUpTo | src/pgs/mod.rs:161-164 | the method's result and new cursor are those of `ReadUpToAt` |
| Composition.CompositionStateFrom | src/pgs/mod.rs:117-129 | succeeds exactly for 0x00, 0x40 and 0x80, giving the state whose discriminant is the byte; any other byte is an error |
| Composition.CompositionStateRoundTrip | src/pgs/mod.rs:111-129 | every state is decoded back from its discriminant |
| Composition.StateCode | src/pgs/mod.rs:111-116 | the `#[repr(u8)]` discriminants; `Composition.CompositionStateRoundTrip` proves `try_from` inverts it |
| Composition.ParseCropping | src/pgs/mod.rs:183-195 | the four big-endian cropping fields; `Composition.ParseCroppingOfEncoding` and `Composition.ParseCroppingEncodes` prove it inverse to the encoder in both directions |
| Composition.ParseCroppingOfEncoding | src/pgs/mod.rs:183-195 | the four big-endian cropping fields are decoded back from their encoding |
| Composition.ParseCroppingEncodes | src/pgs/mod.rs:183-195 | re-encoding decoded cropping information gives the same 8 bytes |
| Composition.WindowInfoAt | src/pgs/mod.rs:158-207 | a window-information read stays within the data |
| Composition.ReadWindowInfo | src/pgs/mod.rs:158-207 | the method's result and new cursor are those of `WindowInfoAt` |
| Composition.WindowInfoShortRead | src/pgs/mod.rs:159-164 | with fewer than 8 bytes left the read fails with not-enough-data, after taking what was left |
| Composition.WindowInfoBadFlag | src/pgs/mod.rs:167-171 | a cropped flag other than 0x00 and 0x40 fails after the 8-byte record |
| Composition.WindowInfoCroppingShort | src/pgs/mod.rs:175-181 | flag 0x40 with fewer than 8 more bytes fails with not-enough-data |
| Composition.WindowInfoAtEncodes | src/pgs/mod.rs:165-198 | a record that is read is well formed: flag 0x00 without cropping and 8 bytes, or flag 0x40 with cropping and 16 bytes; the bytes are exactly its encoding (big-endian id, window id, flag, big-endian x and y) |
| Composition.WindowInfoAtOfEncoding | src/pgs/mod.rs:158-207 | a well-formed record's encoding is read back as that record, consuming exactly its bytes |
| Segment.SegmentTypeFrom | src/pgs/segment.rs:29-40 | succeeds exactly for 0x14, 0x15, 0x16, 0x17 and 0x80, giving the type whose discriminant is the byte; any other byte is an error |
| Segment.SegmentTypeRoundTrip | src/pgs/segment.rs:13-40 | every segment type is decoded back from its discriminant |
| Segment.TypeCode | src/pgs/segment.rs:13-21 | the `#[repr(u8)]` discriminants; `Segment.SegmentTypeRoundTrip` proves `try_from` inverts it |
| Segment.PresentationTime | src/pgs/segment.rs:63-66 | the result is `pts / 90`, truncated: `ms*90 <= pts < ms*90 + 90` |
| Segment.PresentationTimeExamples | src/pgs/segment.rs:63-66 | 90000 and 90089 give 1000, and 90090 gives 1001 |
| Segment.HeaderAt | src/pgs/segment.rs:83-85 | the header read consumes exactly 13 bytes when they are there, and panics otherwise |
| Segment.ParseHeader | src/pgs/segment.rs:88-101 | the decoding of the 13 header bytes; `Segment.ParseHeaderAccepts` gives exactly which bytes it accepts, and `Segment.ParseHeaderEncodes` with `Segment.ParseHeaderOfEncoding` prove it inverse to the encoder |
| Segment.ReadHeader | src/pgs/segment.rs:83-102 | the method's result and new cursor are those of `HeaderAt` |
| Segment.ParseHeaderAccepts | src/pgs/segment.rs:88-93 | the 13 bytes decode exactly when they start with `0x50 0x47` and the type byte is valid; a missing magic is reported before a bad type |
| Segment.ParseHeaderEncodes | src/pgs/segment.rs:91-101 | a decoded header re-encodes to the same 13 bytes (magic, big-endian pts, dts, the type byte, big-endian size) |
| Segment.ParseHeaderOfEncoding | src/pgs/segment.rs:83-102 | every header is decoded back from its encoding |
| Segment.WindowInfosAt | src/pgs/segment.rs:139-141 | `count` records read one after the other give exactly `count` records, or the first error |
| Segment.PcsAt | src/pgs/segment.rs:116-153 | the composition segment read stays within the data |
| Segment.ReadPcs | src/pgs/segment.rs:116-153 | the method's result and new cursor are those of `PcsAt` |
| Segment.ReadWindowInfos | src/pgs/segment.rs:139-141 | the `for` loop's result and new cursor are those of `WindowInfosAt` |
| Segment.ParsePcs | src/pgs/segment.rs:122-138 | the decoding of the 11 fixed bytes; `Segment.ParsePcsAccepts` gives exactly which bytes it accepts and in which order the checks fail, and `Segment.ParsePcsEncodes` with `Segment.ParsePcsOfEncoding` prove it inverse to the encoder |
| Segment.ParsePcsAccepts | src/pgs/segment.rs:124-136 | the fixed part decodes exactly when frame rate is 0x10, the composition state is valid and the palette update flag is 0x00 or 0x80; the frame-rate assertion panics first, then the state error, then the flag error |
| Segment.ParsePcsEncodes | src/pgs/segment.rs:120-138 | a decoded fixed part is well formed and re-encodes to the same 11 bytes |
| Segment.ParsePcsOfEncoding | src/pgs/segment.rs:120-138 | every well-formed fixed part is decoded back from its encoding |
| Segment.WindowInfosAtEncodes | src/pgs/segment.rs:139-141 | records read one after the other are well formed and consumed exactly their encodings |
| Segment.WindowInfosAtOfEncoding | src/pgs/segment.rs:139-141 | encoded records are read back one by one, consuming exactly their bytes |
| Segment.PcsAtConsumes | src/pgs/segment.rs:119-141 | a composition segment that is read consumed its 11 bytes plus exactly `number_of_composition_objects` well-formed records, and nothing else |
| Segment.PcsAtOfEncoding | src/pgs/segment.rs:116-153 | a composition segment and its records, encoded, are read back, consuming exactly their bytes |
| Segment.WdsAt | src/pgs/segment.rs:165-183 | the window segment read stays within the data |
| Segment.ReadWds | src/pgs/segment.rs:165-183 | the method's result and new cursor are those of `WdsAt` |
| Segment.ParseWds | src/pgs/segment.rs:169-182 | the decoding of the 11 taken bytes; `Segment.WdsIgnoresEleventhByte`, `Segment.ParseWdsEncodes` and `Segment.ParseWdsOfEncoding` prove it reads only the first 10 and inverts the 10-byte encoder |
| Segment.WdsIgnoresEleventhByte | src/pgs/segment.rs:166-174 | 11 bytes are taken, but the eleventh has no effect on the result |
| Segment.ParseWdsEncodes | src/pgs/segment.rs:169-174 | the decoded window re-encodes to the first 10 bytes taken |
| Segment.ParseWdsOfEncoding | src/pgs/segment.rs:169-174 | every window is decoded back from its 10-byte encoding, whatever the eleventh byte |
| Segment.PdsAt | src/pgs/segment.rs:196-217 | the palette segment read stays within the data |
| Segment.ReadPds | src/pgs/segment.rs:196-217 | the method's result and new cursor are those of `PdsAt` |
| Segment.ParsePds | src/pgs/segment.rs:199-216 | the decoding of the 7 taken bytes; `Segment.ParsePdsRoundTrip` proves it inverse to the encoder in both directions |
| Segment.ParsePdsRoundTrip | src/pgs/segment.rs:197-207 | the 7 bytes and the decoded palette entry determine each other |
| Segment.PdsReadsOneEntry | src/pgs/segment.rs:197-207 | a palette payload with `k` five-byte entries is read as its first entry and 7 bytes; the read ends at the end of the payload exactly when `k == 1` |
| Segment.OdsAt | src/pgs/segment.rs:230-260 | the object segment read stays within the data |
| Segment.ReadOds | src/pgs/segment.rs:230-260 | the method's result and new cursor are those of `OdsAt` |
| Segment.OdsAtConsumes | src/pgs/segment.rs:231-258 | an object that is read holds exactly as many data bytes as its length field declares, the read consumed `11 + to_u32(length)` bytes, and those bytes are exactly its encoding |
| Segment.OdsAtSucceeds | src/pgs/segment.rs:243-249 | the object read succeeds exactly when the header and the declared length fit in what remains; otherwise it panics |
| Segment.OdsAtOfEncoding | src/pgs/segment.rs:230-260 | an encoded object whose data has its declared length is read back, consuming exactly its bytes |
| Segment.OdsDeclaredLengthOverreads | src/pgs/segment.rs:243-249 | an object whose length field counts width and height besides the bitmap, as the format defines it, panics at the end of the input |
| Pgs.PayloadAt | src/pgs/mod.rs:86-106 | each segment type runs its own decoder; `End` reads nothing |
| Pgs.StepAt | src/pgs/mod.rs:84-106 | a loop pass that goes on prints a header line and a payload line, and moves past at least the 13-byte header; one that stops prints at most the header |
| Pgs.RunFrom | src/pgs/mod.rs:84-107 | the lines printed by the `while let` loop and the error that ends it; `Pgs.RunLinesBound`, `Pgs.RunAlternates`, `Pgs.RunOfEncoding` and `Pgs.StepAtEncodes` carry its properties |
| Pgs.RunLinesBound | src/pgs/mod.rs:84-107 | at most two lines are printed for every 13 bytes of input, so the loop ends on finite input |
| Pgs.ReadPayload | src/pgs/mod.rs:86-106 | the dispatch's result and new cursor are those of `PayloadAt` |
| Pgs.RunStep | src/pgs/mod.rs:84-106 | one loop pass's lines, stop and new cursor are those of `StepAt` |
| Pgs.Run | src/pgs/mod.rs:79-109 | the lines printed and the error that ends `run` are those of `RunFrom(input, 0)` |
| Pgs.PayloadAtOfEncoding | src/pgs/mod.rs:86-106 | an encoded payload is read back as its line, consuming exactly its bytes |
| Pgs.StepAtOfEncoding | src/pgs/mod.rs:84-106 | an encoded segment is one loop pass that prints its two lines and moves past exactly its bytes |
| Pgs.RunOfRecord | src/pgs/mod.rs:84-107 | an encoded segment is printed, and the run goes on right after its bytes |
| Pgs.RunAtEnd | src/pgs/mod.rs:84 | with fewer than 13 bytes left the run prints nothing more and panics |
| Pgs.RunOfEncoding | src/pgs/mod.rs:84-107 | a stream of well-formed segments is printed segment by segment, then the next header read panics at the end of the input; `run` never returns `Ok` |
| Pgs.PayloadAtEncodes | src/pgs/mod.rs:86-106 | a payload that is read is a well-formed payload of the dispatched type, whose encoding is exactly the bytes read |
| Pgs.StepAtEncodes | src/pgs/mod.rs:84-106 | a loop pass that goes on has read a well-formed segment: the bytes it moved past are that segment's encoding and the lines are its lines |
| Pgs.RunAlternates | src/pgs/mod.rs:85-105 | the printed lines alternate: a header line, then the line of its payload |
| Pgs.MissingMagicStops | src/pgs/mod.rs:84 | with 13 bytes left whose first is not `0x50`, the run prints nothing more and stops with the missing-magic error |
| Pgs.RecordThenMissingMagic | src/pgs/mod.rs:84-107 | a segment followed by bytes that do not start with `0x50` is printed, then the run stops with the missing-magic error |
| Pgs.StandardWdsMisaligns | src/pgs/segment.rs:166-167 | a window segment with one window (10 bytes) followed by another segment: the 11-byte read eats the next `P`, and the run stops with the missing-magic error |
| Pgs.StandardPdsMisaligns | src/pgs/segment.rs:197-202 | a palette segment with more than one entry: the next header read starts at the second entry's id and, unless that id is 0x50, the run stops with the missing-magic error |

## Left out

- `src/main.rs` (allocator, profiling, logging, command line) and `src/memory_stats.rs` (allocation counters behind a mutex, file output) are not part of this model. They are process plumbing and I/O.
- `File::open` and `BufReader`: the input file is the `input` sequence given to `Pgs.Run`. Opening or reading the file cannot fail in the model, so `Error::IoError` never arises.
- `println!`: each printed line is a `Pgs.Line` value holding the decoded structure. The text that `Display` and `Debug` would write is not modelled.
- `Error::EndOfFile` is never produced by the modelled code.
- The snafu display strings are not modelled. Errors are kinds (`Base.ErrorKind`), and panics are kept apart from returned errors (`Base.PanicKind`).
- Short reads of `io::Read::read` in `read_window_info`: a read returns everything that remains, up to the requested count (`Buffer.ReadUpToAt`). A reader that returns fewer bytes while more remain is not modelled.
- `SegmentType::_value` (an unsafe read of the enum's discriminant through a raw reference) is replaced by the explicit discriminant function `Segment.TypeCode`.
- The segment-size argument that `run` passes to `read_pds` and `read_ods` (`src/pgs/mod.rs:96`, `src/pgs/mod.rs:100`) is not used, as in the callees.
- `usize` conversions such as `to_u32().try_into().unwrap()` (`src/pgs/segment.rs:243`) cannot fail on the targets the code is built for. The model treats them as exact.
- U24.FromU32: the debug assertion `d == 0` is a precondition (`n < 2^24`). A release build that drops the top byte of a larger `n` is not modelled.
- Display-set aggregation, object-fragment reassembly and multi-entry palettes do not exist in the code and are not modelled.

## Findings

| source | as written | input that shows it | evidently intended | confidence | as-written member | corrected member |
|---|---|---|---|---|---|---|
| src/pgs/u24.rs:19-23 | `from_u32` stores the little-endian bytes, while `to_u32` reads the bytes big-endian | `n = 1`: `to_u32(from_u32(1))` is 65536 | `from_u32` is the inverse of `to_u32`: it stores the big-endian bytes below the zero top byte | not executed | U24.FromU32NotInverse | U24.FromU32BeRoundTrip |
