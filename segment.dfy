/** Segment header and the four typed payload decoders. */
module Segment {
  import opened Base
  import opened BigEndian
  import opened U24
  import opened Buffer
  import opened Composition

  const MagicNumber: seq<uint8> := [0x50, 0x47]

  // ---------------------------------------------------------------------------
  // Segment type

  datatype SegmentType = Pds | Ods | Pcs | Wds | End

  /** The `#[repr(u8)]` discriminant of each segment type. */
  function TypeCode(t: SegmentType): uint8 {
    match t
    case Pds => 0x14
    case Ods => 0x15
    case Pcs => 0x16
    case Wds => 0x17
    case End => 0x80
  }

  /** `SegmentType::try_from`: accepts exactly the five discriminants. */
  function SegmentTypeFrom(value: uint8): (r: Result<SegmentType>)
    ensures r.Ok? <==> value in {0x14, 0x15, 0x16, 0x17, 0x80}
    ensures r.Ok? ==> TypeCode(r.value) == value
    ensures r.Err? ==> r.error == Fail(InvalidSegmentType)
  {
    match value
    case 0x14 => Ok(Pds)
    case 0x15 => Ok(Ods)
    case 0x16 => Ok(Pcs)
    case 0x17 => Ok(Wds)
    case 0x80 => Ok(End)
    case _ => Err(Fail(InvalidSegmentType))
  }

  lemma SegmentTypeRoundTrip(t: SegmentType)
    ensures SegmentTypeFrom(TypeCode(t)) == Ok(t)
  {
  }

  // ---------------------------------------------------------------------------
  // Header

  datatype SegmentHeader = SegmentHeader(pts: uint32, dts: uint32, segType: SegmentType, size: uint16)

  /** `presentation_time`: the 90 kHz timestamp in whole milliseconds, truncated. */
  function PresentationTime(h: SegmentHeader): (ms: uint32)
    ensures ms * 90 <= h.pts < ms * 90 + 90
  {
    h.pts / 90
  }

  lemma PresentationTimeExamples()
    ensures PresentationTime(SegmentHeader(90000, 0, End, 0)) == 1000
    ensures PresentationTime(SegmentHeader(90089, 0, End, 0)) == 1000
    ensures PresentationTime(SegmentHeader(90090, 0, End, 0)) == 1001
  {
  }

  const HeaderLen: nat := 2 + 4 + 4 + 1 + 2

  /** The 13 header bytes: magic, pts, dts, type, size, integers big-endian. */
  function EncodeHeader(h: SegmentHeader): (s: seq<uint8>)
    ensures |s| == HeaderLen
  {
    MagicNumber + Bytes32(h.pts) + Bytes32(h.dts) + [TypeCode(h.segType)] + Bytes16(h.size)
  }

  /** The decoding of `read_header` once the 13 bytes are taken: the magic is
      checked first, then the type byte. */
  function ParseHeader(b: seq<uint8>): Result<SegmentHeader>
    requires |b| == HeaderLen
  {
    if b[0..2] != MagicNumber then Err(Fail(MissingMagic))
    else
      var pts, dts := U32(b[2..6]), U32(b[6..10]);
      match SegmentTypeFrom(b[10])
      case Err(e) => Err(e)
      case Ok(t) => Ok(SegmentHeader(pts, dts, t, U16(b[11..13])))
  }

  /** `read_header` at `pos`: takes 13 bytes, then decodes them. With 13 bytes
      available it takes exactly 13 of them, whatever they hold; with fewer it panics. */
  function HeaderAt(data: seq<uint8>, pos: nat): (r: Read<SegmentHeader>)
    requires pos <= |data|
    ensures pos <= r.next <= |data|
    ensures pos + HeaderLen <= |data| <==> r.next == pos + HeaderLen
    ensures pos + HeaderLen > |data| ==> r.result == Err(Panic(SliceOutOfRange))
  {
    match SliceAt(data, pos, HeaderLen)
    case Read(Err(e), next) => Read(Err(e), next)
    case Read(Ok(b), next) => Read(ParseHeader(b), next)
  }

  method ReadHeader(buffer: BufferMngr) returns (r: Result<SegmentHeader>)
    requires buffer.Valid()
    modifies buffer
    ensures buffer.Valid()
    ensures r == HeaderAt(buffer.buffer, old(buffer.cursor)).result
    ensures buffer.cursor == HeaderAt(buffer.buffer, old(buffer.cursor)).next
  {
    var b :- buffer.TakeSlice(HeaderLen);
    if b[0..2] != MagicNumber {
      return Err(Fail(MissingMagic));
    }
    var pts := U32(b[2..6]);
    var dts := U32(b[6..10]);
    var segType :- SegmentTypeFrom(b[10]);
    var size := U16(b[11..13]);
    return Ok(SegmentHeader(pts, dts, segType, size));
  }

  /** The header decodes exactly when it starts with "PG" and its type byte is
      one of the five; a missing magic is reported before a bad type. */
  lemma ParseHeaderAccepts(b: seq<uint8>)
    requires |b| == HeaderLen
    ensures ParseHeader(b).Ok? <==> b[0] == 0x50 && b[1] == 0x47 && b[10] in {0x14, 0x15, 0x16, 0x17, 0x80}
    ensures !(b[0] == 0x50 && b[1] == 0x47) ==> ParseHeader(b) == Err(Fail(MissingMagic))
    ensures b[0] == 0x50 && b[1] == 0x47 && b[10] !in {0x14, 0x15, 0x16, 0x17, 0x80}
            ==> ParseHeader(b) == Err(Fail(InvalidSegmentType))
  {
    assert b[0..2] == MagicNumber <==> b[0] == 0x50 && b[1] == 0x47 by {
      if b[0] == 0x50 && b[1] == 0x47 {
        assert b[0..2] == [b[0], b[1]];
      }
    }
  }

  /** A decoded header is the one its bytes encode: pts from bytes 2..6, dts from
      6..10, the type from byte 10 and the size from 11..13, all big-endian. */
  lemma ParseHeaderEncodes(b: seq<uint8>)
    requires |b| == HeaderLen && ParseHeader(b).Ok?
    ensures EncodeHeader(ParseHeader(b).value) == b
  {
    Bytes32RoundTrip(b[2..6]);
    Bytes32RoundTrip(b[6..10]);
    Bytes16RoundTrip(b[11..13]);
    assert b == b[0..2] + b[2..6] + b[6..10] + [b[10]] + b[11..13];
  }

  lemma ParseHeaderOfEncoding(h: SegmentHeader)
    ensures ParseHeader(EncodeHeader(h)) == Ok(h)
  {
    var b := EncodeHeader(h);
    assert b[0..2] == MagicNumber && b[2..6] == Bytes32(h.pts) && b[6..10] == Bytes32(h.dts);
    assert b[10] == TypeCode(h.segType) && b[11..13] == Bytes16(h.size);
    U32RoundTrip(h.pts);
    U32RoundTrip(h.dts);
    U16RoundTrip(h.size);
  }

  // ---------------------------------------------------------------------------
  // Presentation composition segment

  datatype PresentationCompositionSegment = PresentationCompositionSegment(
    width: uint16,
    height: uint16,
    frameRate: uint8,
    compositionNumber: uint16,
    compositionState: CompositionState,
    paletteUpdateFlag: uint8,
    paletteId: uint8,
    numberOfCompositionObjects: uint8)

  const PcsLen: nat := 2 + 2 + 1 + 2 + 1 + 1 + 1 + 1

  /** The fixed part of a composition segment that decodes without failure. */
  ghost predicate ValidPcs(p: PresentationCompositionSegment) {
    p.frameRate == 0x10 && (p.paletteUpdateFlag == 0x00 || p.paletteUpdateFlag == 0x80)
  }

  function EncodePcs(p: PresentationCompositionSegment): (s: seq<uint8>)
    ensures |s| == PcsLen
  {
    Bytes16(p.width) + Bytes16(p.height) + [p.frameRate] + Bytes16(p.compositionNumber)
    + [StateCode(p.compositionState), p.paletteUpdateFlag, p.paletteId, p.numberOfCompositionObjects]
  }

  /** The checks of `read_pcs` on its 11 fixed bytes, in the source's order: the
      frame-rate assertion, the composition state, the palette update flag. */
  function ParsePcs(b: seq<uint8>): Result<PresentationCompositionSegment>
    requires |b| == PcsLen
  {
    var width, height, frameRate := U16(b[0..2]), U16(b[2..4]), b[4];
    if frameRate != 0x10 then Err(Panic(FrameRateNotSixteen))
    else
      var compositionNumber := U16(b[5..7]);
      match CompositionStateFrom(b[7])
      case Err(e) => Err(e)
      case Ok(state) =>
        var flag := b[8];
        if flag != 0x00 && flag != 0x80 then Err(Fail(InvalidPaletteUpdateFlag))
        else Ok(PresentationCompositionSegment(width, height, frameRate, compositionNumber, state, flag, b[9], b[10]))
  }

  function EncodeWindowInfos(ws: seq<WindowInformationObject>): seq<uint8> {
    if ws == [] then [] else EncodeWindowInfo(ws[0]) + EncodeWindowInfos(ws[1..])
  }

  ghost predicate AllValidWindowInfos(ws: seq<WindowInformationObject>) {
    forall i :: 0 <= i < |ws| ==> ValidWindowInfo(ws[i])
  }

  /** Puts records already read in front of the records read after them. */
  function Prepend(ws: seq<WindowInformationObject>, r: Read<seq<WindowInformationObject>>): Read<seq<WindowInformationObject>> {
    match r.result
    case Ok(rest) => Read(Ok(ws + rest), r.next)
    case Err(e) => r
  }

  /** `count` calls of `read_window_info` one after the other, stopping at the first error. */
  function WindowInfosAt(data: seq<uint8>, pos: nat, count: nat): (r: Read<seq<WindowInformationObject>>)
    requires pos <= |data|
    ensures pos <= r.next <= |data|
    ensures r.result.Ok? ==> |r.result.value| == count
    decreases count
  {
    if count == 0 then Read(Ok([]), pos)
    else
      match WindowInfoAt(data, pos)
      case Read(Err(e), next) => Read(Err(e), next)
      case Read(Ok(w), next) => Prepend([w], WindowInfosAt(data, next, count - 1))
  }

  /** `read_pcs` at `pos`: the 11 fixed bytes, then `number_of_composition_objects`
      records, which are read and dropped. */
  function PcsAt(data: seq<uint8>, pos: nat): (r: Read<PresentationCompositionSegment>)
    requires pos <= |data|
    ensures pos <= r.next <= |data|
  {
    match SliceAt(data, pos, PcsLen)
    case Read(Err(e), next) => Read(Err(e), next)
    case Read(Ok(b), next) =>
      match ParsePcs(b)
      case Err(e) => Read(Err(e), next)
      case Ok(p) =>
        var objects := WindowInfosAt(data, next, p.numberOfCompositionObjects);
        match objects.result
        case Err(e) => Read(Err(e), objects.next)
        case Ok(_) => Read(Ok(p), objects.next)
  }

  method ReadPcs(buffer: BufferMngr) returns (r: Result<PresentationCompositionSegment>)
    requires buffer.Valid()
    modifies buffer
    ensures buffer.Valid()
    ensures r == PcsAt(buffer.buffer, old(buffer.cursor)).result
    ensures buffer.cursor == PcsAt(buffer.buffer, old(buffer.cursor)).next
  {
    var b :- buffer.TakeSlice(PcsLen);
    var width := U16(b[0..2]);
    var height := U16(b[2..4]);
    var frameRate := b[4];
    if frameRate != 0x10 {
      return Err(Panic(FrameRateNotSixteen));
    }
    var compositionNumber := U16(b[5..7]);
    var compositionState :- CompositionStateFrom(b[7]);
    var paletteUpdateFlag := b[8];
    if paletteUpdateFlag != 0x00 && paletteUpdateFlag != 0x80 {
      return Err(Fail(InvalidPaletteUpdateFlag));
    }
    var paletteId := b[9];
    var numberOfCompositionObjects := b[10];
    var objects :- ReadWindowInfos(buffer, numberOfCompositionObjects);
    return Ok(PresentationCompositionSegment(width, height, frameRate, compositionNumber, compositionState,
                                             paletteUpdateFlag, paletteId, numberOfCompositionObjects));
  }

  /** The `for` loop of `read_pcs`: `count` calls of `read_window_info`, leaving at the first error. */
  method ReadWindowInfos(buffer: BufferMngr, count: nat) returns (r: Result<seq<WindowInformationObject>>)
    requires buffer.Valid()
    modifies buffer
    ensures buffer.Valid()
    ensures r == WindowInfosAt(buffer.buffer, old(buffer.cursor), count).result
    ensures buffer.cursor == WindowInfosAt(buffer.buffer, old(buffer.cursor), count).next
  {
    ghost var start := buffer.cursor;
    var ws: seq<WindowInformationObject> := [];
    assert Prepend([], WindowInfosAt(buffer.buffer, start, count)) == WindowInfosAt(buffer.buffer, start, count) by {
      var objects := WindowInfosAt(buffer.buffer, start, count);
      if objects.result.Ok? {
        assert [] + objects.result.value == objects.result.value;
      }
    }
    var i := 0;
    while i < count
      invariant buffer.Valid() && i <= count
      invariant WindowInfosAt(buffer.buffer, start, count) == Prepend(ws, WindowInfosAt(buffer.buffer, buffer.cursor, count - i))
      decreases count - i
    {
      var w := ReadWindowInfo(buffer);
      if w.Err? {
        return Err(w.error);
      }
      PrependTwice(ws, [w.value], WindowInfosAt(buffer.buffer, buffer.cursor, count - i - 1));
      ws := ws + [w.value];
      i := i + 1;
    }
    assert ws + [] == ws;
    return Ok(ws);
  }

  lemma PrependTwice(ws: seq<WindowInformationObject>, vs: seq<WindowInformationObject>, r: Read<seq<WindowInformationObject>>)
    ensures Prepend(ws, Prepend(vs, r)) == Prepend(ws + vs, r)
  {
    if r.result.Ok? {
      assert ws + (vs + r.result.value) == (ws + vs) + r.result.value;
    }
  }

  /** The fixed part decodes exactly when the frame rate is 0x10, the composition
      state is 0x00, 0x40 or 0x80 and the palette update flag is 0x00 or 0x80;
      the frame rate is checked first and panics. */
  lemma ParsePcsAccepts(b: seq<uint8>)
    requires |b| == PcsLen
    ensures ParsePcs(b).Ok? <==> b[4] == 0x10 && b[7] in {0x00, 0x40, 0x80} && b[8] in {0x00, 0x80}
    ensures b[4] != 0x10 ==> ParsePcs(b) == Err(Panic(FrameRateNotSixteen))
    ensures b[4] == 0x10 && b[7] !in {0x00, 0x40, 0x80} ==> ParsePcs(b) == Err(Fail(InvalidCompositionState))
    ensures b[4] == 0x10 && b[7] in {0x00, 0x40, 0x80} && b[8] !in {0x00, 0x80}
            ==> ParsePcs(b) == Err(Fail(InvalidPaletteUpdateFlag))
  {
  }

  lemma ParsePcsEncodes(b: seq<uint8>)
    requires |b| == PcsLen && ParsePcs(b).Ok?
    ensures ValidPcs(ParsePcs(b).value) && EncodePcs(ParsePcs(b).value) == b
  {
    Bytes16RoundTrip(b[0..2]);
    Bytes16RoundTrip(b[2..4]);
    Bytes16RoundTrip(b[5..7]);
    assert b == b[0..2] + b[2..4] + [b[4]] + b[5..7] + [b[7], b[8], b[9], b[10]];
  }

  lemma ParsePcsOfEncoding(p: PresentationCompositionSegment)
    requires ValidPcs(p)
    ensures ParsePcs(EncodePcs(p)) == Ok(p)
  {
    var b := EncodePcs(p);
    assert b[0..2] == Bytes16(p.width) && b[2..4] == Bytes16(p.height) && b[5..7] == Bytes16(p.compositionNumber);
    U16RoundTrip(p.width);
    U16RoundTrip(p.height);
    U16RoundTrip(p.compositionNumber);
    CompositionStateRoundTrip(p.compositionState);
  }

  lemma EncodeWindowInfosCons(w: WindowInformationObject, ws: seq<WindowInformationObject>)
    ensures EncodeWindowInfos([w] + ws) == EncodeWindowInfo(w) + EncodeWindowInfos(ws)
    ensures AllValidWindowInfos([w] + ws) <==> ValidWindowInfo(w) && AllValidWindowInfos(ws)
  {
    assert ([w] + ws)[1..] == ws;
    if ValidWindowInfo(w) && AllValidWindowInfos(ws) {
      forall i | 0 <= i < |[w] + ws| ensures ValidWindowInfo(([w] + ws)[i]) {
        if i > 0 { assert ([w] + ws)[i] == ws[i - 1]; }
      }
    }
    if AllValidWindowInfos([w] + ws) {
      forall i | 0 <= i < |ws| ensures ValidWindowInfo(ws[i]) {
        assert ([w] + ws)[i + 1] == ws[i];
      }
    }
  }

  lemma SliceJoin(data: seq<uint8>, a: nat, b: nat, c: nat)
    requires a <= b <= c <= |data|
    ensures data[a..c] == data[a..b] + data[b..c]
  {
  }

  lemma SliceSplit(data: seq<uint8>, a: nat, x: seq<uint8>, y: seq<uint8>)
    requires a + |x| + |y| <= |data| && data[a..a + |x| + |y|] == x + y
    ensures data[a..a + |x|] == x && data[a + |x|..a + |x| + |y|] == y
  {
    assert data[a..a + |x|] == data[a..a + |x| + |y|][..|x|];
    assert data[a + |x|..a + |x| + |y|] == data[a..a + |x| + |y|][|x|..];
  }

  /** Records read one after the other are well formed and their bytes are exactly their encodings. */
  lemma {:induction false} WindowInfosAtEncodes(data: seq<uint8>, pos: nat, count: nat)
    requires pos <= |data| && WindowInfosAt(data, pos, count).result.Ok?
    ensures AllValidWindowInfos(WindowInfosAt(data, pos, count).result.value)
    ensures data[pos..WindowInfosAt(data, pos, count).next] == EncodeWindowInfos(WindowInfosAt(data, pos, count).result.value)
    decreases count
  {
    if count > 0 {
      var first := WindowInfoAt(data, pos);
      var rest := WindowInfosAt(data, first.next, count - 1);
      WindowInfoAtEncodes(data, pos);
      WindowInfosAtEncodes(data, first.next, count - 1);
      EncodeWindowInfosCons(first.result.value, rest.result.value);
      SliceJoin(data, pos, first.next, rest.next);
    }
  }

  /** Encoded records are read back one by one, consuming exactly their bytes. */
  lemma {:induction false} WindowInfosAtOfEncoding(data: seq<uint8>, pos: nat, ws: seq<WindowInformationObject>)
    requires AllValidWindowInfos(ws)
    requires pos + |EncodeWindowInfos(ws)| <= |data| && data[pos..pos + |EncodeWindowInfos(ws)|] == EncodeWindowInfos(ws)
    ensures WindowInfosAt(data, pos, |ws|) == Read(Ok(ws), pos + |EncodeWindowInfos(ws)|)
    decreases ws
  {
    if ws != [] {
      assert ws == [ws[0]] + ws[1..];
      EncodeWindowInfosCons(ws[0], ws[1..]);
      var e, tail := EncodeWindowInfo(ws[0]), EncodeWindowInfos(ws[1..]);
      SliceSplit(data, pos, e, tail);
      WindowInfoAtOfEncoding(data, pos, ws[0]);
      WindowInfosAtOfEncoding(data, pos + |e|, ws[1..]);
    }
  }

  /** A composition segment that is read has taken its 11 fixed bytes followed by
      exactly `number_of_composition_objects` well-formed records, and nothing else. */
  lemma PcsAtConsumes(data: seq<uint8>, pos: nat)
    requires pos <= |data| && PcsAt(data, pos).result.Ok?
    ensures var p := PcsAt(data, pos).result.value;
      var objects := WindowInfosAt(data, pos + PcsLen, p.numberOfCompositionObjects);
      && objects.result.Ok?
      && |objects.result.value| == p.numberOfCompositionObjects
      && AllValidWindowInfos(objects.result.value)
      && PcsAt(data, pos).next == objects.next == pos + PcsLen + |EncodeWindowInfos(objects.result.value)|
      && data[pos..PcsAt(data, pos).next] == EncodePcs(p) + EncodeWindowInfos(objects.result.value)
  {
    var b := data[pos..pos + PcsLen];
    var p := PcsAt(data, pos).result.value;
    var objects := WindowInfosAt(data, pos + PcsLen, p.numberOfCompositionObjects);
    ParsePcsEncodes(b);
    WindowInfosAtEncodes(data, pos + PcsLen, p.numberOfCompositionObjects);
    assert data[pos..objects.next] == b + data[pos + PcsLen..objects.next];
  }

  /** A composition segment and its records, encoded, are read back, consuming exactly their bytes. */
  lemma PcsAtOfEncoding(data: seq<uint8>, pos: nat, p: PresentationCompositionSegment, ws: seq<WindowInformationObject>)
    requires ValidPcs(p) && AllValidWindowInfos(ws) && |ws| == p.numberOfCompositionObjects
    requires var e := EncodePcs(p) + EncodeWindowInfos(ws);
      pos + |e| <= |data| && data[pos..pos + |e|] == e
    ensures PcsAt(data, pos) == Read(Ok(p), pos + PcsLen + |EncodeWindowInfos(ws)|)
  {
    var e := EncodePcs(p) + EncodeWindowInfos(ws);
    assert data[pos..pos + PcsLen] == EncodePcs(p) by {
      assert data[pos..pos + PcsLen] == data[pos..pos + |e|][..PcsLen];
    }
    assert data[pos + PcsLen..pos + |e|] == EncodeWindowInfos(ws) by {
      assert data[pos + PcsLen..pos + |e|] == data[pos..pos + |e|][PcsLen..];
    }
    ParsePcsOfEncoding(p);
    WindowInfosAtOfEncoding(data, pos + PcsLen, ws);
  }

  // ---------------------------------------------------------------------------
  // Window definition segment

  datatype WindowDefinitionSegment = WindowDefinitionSegment(
    numberOfWindows: uint8,
    windowId: uint8,
    x: uint16,
    y: uint16,
    width: uint16,
    height: uint16)

  /** The decoder takes as many bytes as the composition segment's fixed part. */
  const WdsLen: nat := 2 + 2 + 1 + 2 + 1 + 1 + 1 + 1

  /** The ten bytes the decoder reads fields from. */
  function EncodeWds(w: WindowDefinitionSegment): (s: seq<uint8>)
    ensures |s| == 10
  {
    [w.numberOfWindows, w.windowId] + Bytes16(w.x) + Bytes16(w.y) + Bytes16(w.width) + Bytes16(w.height)
  }

  function ParseWds(b: seq<uint8>): WindowDefinitionSegment
    requires |b| == WdsLen
  {
    WindowDefinitionSegment(b[0], b[1], U16(b[2..4]), U16(b[4..6]), U16(b[6..8]), U16(b[8..10]))
  }

  /** `read_wds` at `pos`: takes 11 bytes and decodes the first 10. */
  function WdsAt(data: seq<uint8>, pos: nat): (r: Read<WindowDefinitionSegment>)
    requires pos <= |data|
    ensures pos <= r.next <= |data|
  {
    match SliceAt(data, pos, WdsLen)
    case Read(Err(e), next) => Read(Err(e), next)
    case Read(Ok(b), next) => Read(Ok(ParseWds(b)), next)
  }

  method ReadWds(buffer: BufferMngr) returns (r: Result<WindowDefinitionSegment>)
    requires buffer.Valid()
    modifies buffer
    ensures buffer.Valid()
    ensures r == WdsAt(buffer.buffer, old(buffer.cursor)).result
    ensures buffer.cursor == WdsAt(buffer.buffer, old(buffer.cursor)).next
  {
    var b :- buffer.TakeSlice(WdsLen);
    var numberOfWindows := b[0];
    var windowId := b[1];
    var x := U16(b[2..4]);
    var y := U16(b[4..6]);
    var width := U16(b[6..8]);
    var height := U16(b[8..10]);
    return Ok(WindowDefinitionSegment(numberOfWindows, windowId, x, y, width, height));
  }

  /** The window decoder takes 11 bytes and the eleventh has no effect on what it returns. */
  lemma WdsIgnoresEleventhByte(b: seq<uint8>, z: uint8)
    requires |b| == WdsLen
    ensures ParseWds(b) == ParseWds(b[..10] + [z])
  {
    var b' := b[..10] + [z];
    assert b'[2..4] == b[2..4] && b'[4..6] == b[4..6] && b'[6..8] == b[6..8] && b'[8..10] == b[8..10];
  }

  /** A window decodes to what its first ten bytes encode, and back. */
  lemma ParseWdsEncodes(b: seq<uint8>)
    requires |b| == WdsLen
    ensures EncodeWds(ParseWds(b)) == b[..10]
  {
    Bytes16RoundTrip(b[2..4]);
    Bytes16RoundTrip(b[4..6]);
    Bytes16RoundTrip(b[6..8]);
    Bytes16RoundTrip(b[8..10]);
    assert b[..10] == [b[0], b[1]] + b[2..4] + b[4..6] + b[6..8] + b[8..10];
  }

  lemma ParseWdsOfEncoding(w: WindowDefinitionSegment, z: uint8)
    ensures ParseWds(EncodeWds(w) + [z]) == w
  {
    var b := EncodeWds(w) + [z];
    assert b[2..4] == Bytes16(w.x) && b[4..6] == Bytes16(w.y);
    assert b[6..8] == Bytes16(w.width) && b[8..10] == Bytes16(w.height);
    U16RoundTrip(w.x);
    U16RoundTrip(w.y);
    U16RoundTrip(w.width);
    U16RoundTrip(w.height);
  }

  // ---------------------------------------------------------------------------
  // Palette definition segment

  /** The palette decoder keeps one entry: the first. */
  datatype PaletteDefinitionSegment = PaletteDefinitionSegment(
    paletteId: uint8,
    paletteVersionNumber: uint8,
    paletteEntryId: uint8,
    luminance: uint8,
    colorDifferenceRed: uint8,
    colorDifferenceBlue: uint8,
    transparency: uint8)

  const PdsLen: nat := 7

  function EncodePds(p: PaletteDefinitionSegment): (s: seq<uint8>)
    ensures |s| == PdsLen
  {
    [p.paletteId, p.paletteVersionNumber, p.paletteEntryId, p.luminance,
     p.colorDifferenceRed, p.colorDifferenceBlue, p.transparency]
  }

  function ParsePds(b: seq<uint8>): PaletteDefinitionSegment
    requires |b| == PdsLen
  {
    PaletteDefinitionSegment(b[0], b[1], b[2], b[3], b[4], b[5], b[6])
  }

  /** `read_pds` at `pos`: takes 7 bytes, the palette id and version and one entry. */
  function PdsAt(data: seq<uint8>, pos: nat): (r: Read<PaletteDefinitionSegment>)
    requires pos <= |data|
    ensures pos <= r.next <= |data|
  {
    match SliceAt(data, pos, PdsLen)
    case Read(Err(e), next) => Read(Err(e), next)
    case Read(Ok(b), next) => Read(Ok(ParsePds(b)), next)
  }

  method ReadPds(buffer: BufferMngr) returns (r: Result<PaletteDefinitionSegment>)
    requires buffer.Valid()
    modifies buffer
    ensures buffer.Valid()
    ensures r == PdsAt(buffer.buffer, old(buffer.cursor)).result
    ensures buffer.cursor == PdsAt(buffer.buffer, old(buffer.cursor)).next
  {
    var b :- buffer.TakeSlice(PdsLen);
    return Ok(PaletteDefinitionSegment(b[0], b[1], b[2], b[3], b[4], b[5], b[6]));
  }

  lemma ParsePdsRoundTrip(b: seq<uint8>, p: PaletteDefinitionSegment)
    requires |b| == PdsLen
    ensures EncodePds(ParsePds(b)) == b
    ensures ParsePds(EncodePds(p)) == p
  {
  }

  /** A palette payload of two id bytes and `k` five-byte entries is read as its
      first entry and 7 bytes, whatever `k >= 1` is: with k > 1 the other entries
      stay unread. */
  lemma PdsReadsOneEntry(data: seq<uint8>, pos: nat, id: uint8, version: uint8, entries: seq<uint8>)
    requires |entries| >= 5 && |entries| % 5 == 0
    requires pos + 2 + |entries| <= |data| && data[pos..pos + 2 + |entries|] == [id, version] + entries
    ensures PdsAt(data, pos) == Read(Ok(ParsePds([id, version] + entries[..5])), pos + PdsLen)
    ensures PdsAt(data, pos).next == pos + 2 + |entries| <==> |entries| == 5
  {
    assert data[pos..pos + PdsLen] == ([id, version] + entries)[..PdsLen] == [id, version] + entries[..5];
  }

  // ---------------------------------------------------------------------------
  // Object definition segment

  datatype ObjectDefinitionSegment = ObjectDefinitionSegment(
    objectId: uint16,
    objectVersionNumber: uint8,
    lastInSequenceFlag: uint8,
    objectDataLength: U24,
    width: uint16,
    height: uint16,
    objectData: seq<uint8>)

  const OdsHeaderLen: nat := 2 + 1 + 1 + 3 + 2 + 2

  /** The object data the decoder reads is as long as the length field says. */
  ghost predicate ValidOds(o: ObjectDefinitionSegment) {
    |o.objectData| == ToU32(o.objectDataLength)
  }

  function EncodeOds(o: ObjectDefinitionSegment): (s: seq<uint8>)
    ensures |s| == OdsHeaderLen + |o.objectData|
  {
    Bytes16(o.objectId) + [o.objectVersionNumber, o.lastInSequenceFlag]
    + [o.objectDataLength.b0, o.objectDataLength.b1, o.objectDataLength.b2]
    + Bytes16(o.width) + Bytes16(o.height) + o.objectData
  }

  /** `read_ods` at `pos`: takes the 11-byte object header, then as many bytes as
      the 24-bit length field says. */
  function OdsAt(data: seq<uint8>, pos: nat): (r: Read<ObjectDefinitionSegment>)
    requires pos <= |data|
    ensures pos <= r.next <= |data|
  {
    match SliceAt(data, pos, OdsHeaderLen)
    case Read(Err(e), next) => Read(Err(e), next)
    case Read(Ok(b), afterHeader) =>
      var length := From(b[4..7]);
      match SliceAt(data, afterHeader, ToU32(length))
      case Read(Err(e), next) => Read(Err(e), next)
      case Read(Ok(objectData), next) =>
        Read(Ok(ObjectDefinitionSegment(U16(b[0..2]), b[2], b[3], length, U16(b[7..9]), U16(b[9..11]), objectData)), next)
  }

  method ReadOds(buffer: BufferMngr) returns (r: Result<ObjectDefinitionSegment>)
    requires buffer.Valid()
    modifies buffer
    ensures buffer.Valid()
    ensures r == OdsAt(buffer.buffer, old(buffer.cursor)).result
    ensures buffer.cursor == OdsAt(buffer.buffer, old(buffer.cursor)).next
  {
    var b :- buffer.TakeSlice(OdsHeaderLen);
    var objectId := U16(b[0..2]);
    var objectVersionNumber := b[2];
    var lastInSequenceFlag := b[3];
    var objectDataLength := From(b[4..7]);
    var width := U16(b[7..9]);
    var height := U16(b[9..11]);
    var dataSize := ToU32(objectDataLength);
    var objectData :- buffer.TakeSlice(dataSize);
    return Ok(ObjectDefinitionSegment(objectId, objectVersionNumber, lastInSequenceFlag, objectDataLength,
                                      width, height, objectData));
  }

  /** An object read from the data holds exactly as many bytes as its length field
      declares, and the read took the 11 header bytes plus those. */
  lemma OdsAtConsumes(data: seq<uint8>, pos: nat)
    requires pos <= |data| && OdsAt(data, pos).result.Ok?
    ensures ValidOds(OdsAt(data, pos).result.value)
    ensures OdsAt(data, pos).next == pos + OdsHeaderLen + ToU32(OdsAt(data, pos).result.value.objectDataLength)
    ensures data[pos..OdsAt(data, pos).next] == EncodeOds(OdsAt(data, pos).result.value)
  {
    var r := OdsAt(data, pos);
    var b := data[pos..pos + OdsHeaderLen];
    Bytes16RoundTrip(b[0..2]);
    Bytes16RoundTrip(b[7..9]);
    Bytes16RoundTrip(b[9..11]);
    assert b == b[0..2] + [b[2], b[3]] + b[4..7] + b[7..9] + b[9..11];
    assert data[pos..r.next] == b + data[pos + OdsHeaderLen..r.next];
  }

  /** The object read succeeds exactly when the declared length fits in what remains. */
  lemma OdsAtSucceeds(data: seq<uint8>, pos: nat)
    requires pos <= |data|
    ensures OdsAt(data, pos).result.Ok? <==>
      pos + OdsHeaderLen <= |data| && pos + OdsHeaderLen + ToU32(From(data[pos + 4..pos + 7])) <= |data|
    ensures OdsAt(data, pos).result.Err? ==> OdsAt(data, pos).result.error == Panic(SliceOutOfRange)
  {
    if pos + OdsHeaderLen <= |data| {
      assert data[pos..pos + OdsHeaderLen][4..7] == [data[pos + 4], data[pos + 5], data[pos + 6]] == data[pos + 4..pos + 7];
    }
  }

  lemma OdsAtOfEncoding(data: seq<uint8>, pos: nat, o: ObjectDefinitionSegment)
    requires ValidOds(o)
    requires pos + |EncodeOds(o)| <= |data| && data[pos..pos + |EncodeOds(o)|] == EncodeOds(o)
    ensures OdsAt(data, pos) == Read(Ok(o), pos + |EncodeOds(o)|)
  {
    var e := EncodeOds(o);
    var b := data[pos..pos + OdsHeaderLen];
    assert b == e[..OdsHeaderLen];
    assert b[0..2] == Bytes16(o.objectId) && b[7..9] == Bytes16(o.width) && b[9..11] == Bytes16(o.height);
    assert b[4..7] == [o.objectDataLength.b0, o.objectDataLength.b1, o.objectDataLength.b2];
    assert data[pos + OdsHeaderLen..pos + |e|] == e[OdsHeaderLen..] == o.objectData;
    U16RoundTrip(o.objectId);
    U16RoundTrip(o.width);
    U16RoundTrip(o.height);
  }

  /** In the format, the 24-bit length counts the width and height (4 bytes) as
      well as the bitmap, but the decoder reads the whole declared length after
      the 11-byte header that already holds width and height. An object laid out
      that way at the very end of the input therefore makes the decoder panic. */
  lemma OdsDeclaredLengthOverreads(header: seq<uint8>, bitmap: seq<uint8>)
    requires |header| == OdsHeaderLen
    requires ToU32(From(header[4..7])) == |bitmap| + 4
    ensures OdsAt(header + bitmap, 0) == Read(Err(Panic(SliceOutOfRange)), OdsHeaderLen)
  {
    assert (header + bitmap)[0..OdsHeaderLen] == header;
  }
}
