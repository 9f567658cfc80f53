/** Composition state and the composition-object records of a composition segment. */
module Composition {
  import opened Base
  import opened BigEndian
  import opened Buffer

  /** `CompositionState`, with its `#[repr(u8)]` discriminants given by `StateCode`. */
  datatype CompositionState = Normal | AcquisitionPoint | EpochStart

  function StateCode(s: CompositionState): uint8 {
    match s
    case Normal => 0x00
    case AcquisitionPoint => 0x40
    case EpochStart => 0x80
  }

  /** `CompositionState::try_from`: accepts exactly the three discriminants. */
  function CompositionStateFrom(value: uint8): (r: Result<CompositionState>)
    ensures r.Ok? <==> value == 0x00 || value == 0x40 || value == 0x80
    ensures r.Ok? ==> StateCode(r.value) == value
    ensures r.Err? ==> r.error == Fail(InvalidCompositionState)
  {
    match value
    case 0x00 => Ok(Normal)
    case 0x40 => Ok(AcquisitionPoint)
    case 0x80 => Ok(EpochStart)
    case _ => Err(Fail(InvalidCompositionState))
  }

  lemma CompositionStateRoundTrip(s: CompositionState)
    ensures CompositionStateFrom(StateCode(s)) == Ok(s)
  {
  }

  datatype ObjectCroppingInfo = ObjectCroppingInfo(x: uint16, y: uint16, width: uint16, height: uint16)

  datatype WindowInformationObject = WindowInformationObject(
    objectId: uint16,
    windowId: uint8,
    objectCroppedFlag: uint8,
    x: uint16,
    y: uint16,
    croppingInfo: Option<ObjectCroppingInfo>)

  /** The records a well-formed stream carries: the cropping rectangle is present
      exactly when the flag is 0x40, and 0x00 is the only other flag. */
  ghost predicate ValidWindowInfo(w: WindowInformationObject) {
    if w.croppingInfo.Some? then w.objectCroppedFlag == 0x40 else w.objectCroppedFlag == 0x00
  }

  function EncodeCropping(c: ObjectCroppingInfo): (s: seq<uint8>)
    ensures |s| == 8
  {
    Bytes16(c.x) + Bytes16(c.y) + Bytes16(c.width) + Bytes16(c.height)
  }

  function EncodeWindowInfo(w: WindowInformationObject): (s: seq<uint8>)
    ensures |s| == if w.croppingInfo.Some? then 16 else 8
  {
    Bytes16(w.objectId) + [w.windowId, w.objectCroppedFlag] + Bytes16(w.x) + Bytes16(w.y)
    + (if w.croppingInfo.Some? then EncodeCropping(w.croppingInfo.value) else [])
  }

  function ParseCropping(b: seq<uint8>): ObjectCroppingInfo
    requires |b| == 8
  {
    ObjectCroppingInfo(U16(b[0..2]), U16(b[2..4]), U16(b[4..6]), U16(b[6..8]))
  }

  lemma ParseCroppingOfEncoding(ci: ObjectCroppingInfo)
    ensures ParseCropping(EncodeCropping(ci)) == ci
  {
    var c := EncodeCropping(ci);
    assert c == Bytes16(ci.x) + Bytes16(ci.y) + Bytes16(ci.width) + Bytes16(ci.height);
    assert c[0..2] == Bytes16(ci.x);
    assert c[2..4] == Bytes16(ci.y);
    assert c[4..6] == Bytes16(ci.width);
    assert c[6..8] == Bytes16(ci.height);
    U16RoundTrip(ci.x);
    U16RoundTrip(ci.y);
    U16RoundTrip(ci.width);
    U16RoundTrip(ci.height);
  }

  lemma ParseCroppingEncodes(c: seq<uint8>)
    requires |c| == 8
    ensures EncodeCropping(ParseCropping(c)) == c
  {
    Bytes16RoundTrip(c[0..2]);
    Bytes16RoundTrip(c[2..4]);
    Bytes16RoundTrip(c[4..6]);
    Bytes16RoundTrip(c[6..8]);
    assert c == c[0..2] + c[2..4] + c[4..6] + c[6..8];
  }

  /** `read_window_info` at `pos`: an 8-byte record, then 8 bytes of cropping
      information when the cropped flag is 0x40. A short read is an error, and so
      is a flag other than 0x00 and 0x40 (checked before the positions are used). */
  function WindowInfoAt(data: seq<uint8>, pos: nat): (r: Read<WindowInformationObject>)
    requires pos <= |data|
    ensures pos <= r.next <= |data|
  {
    var (b, afterRecord) := ReadUpToAt(data, pos, 8);
    if |b| < 8 then Read(Err(Fail(NotEnoughData)), afterRecord)
    else
      var flag := b[3];
      if flag != 0x00 && flag != 0x40 then Read(Err(Fail(InvalidCroppedFlag)), afterRecord)
      else
        var objectId, windowId, x, y := U16(b[0..2]), b[2], U16(b[4..6]), U16(b[6..8]);
        if flag == 0x40 then
          var (c, afterCropping) := ReadUpToAt(data, afterRecord, 8);
          if |c| < 8 then Read(Err(Fail(NotEnoughData)), afterCropping)
          else Read(Ok(WindowInformationObject(objectId, windowId, flag, x, y, Some(ParseCropping(c)))), afterCropping)
        else Read(Ok(WindowInformationObject(objectId, windowId, flag, x, y, None)), afterRecord)
  }

  /** `read_window_info`, reading through the cursor. */
  method ReadWindowInfo(buffer: BufferMngr) returns (r: Result<WindowInformationObject>)
    requires buffer.Valid()
    modifies buffer
    ensures buffer.Valid()
    ensures r == WindowInfoAt(buffer.buffer, old(buffer.cursor)).result
    ensures buffer.cursor == WindowInfoAt(buffer.buffer, old(buffer.cursor)).next
  {
    var b := buffer.ReadUpTo(8);
    if |b| < 8 {
      return Err(Fail(NotEnoughData));
    }
    var objectId := U16(b[0..2]);
    var windowId := b[2];
    var flag := b[3];
    if flag != 0x00 && flag != 0x40 {
      return Err(Fail(InvalidCroppedFlag));
    }
    var x := U16(b[4..6]);
    var y := U16(b[6..8]);
    var cropping: Option<ObjectCroppingInfo> := None;
    if flag == 0x40 {
      var c := buffer.ReadUpTo(8);
      if |c| < 8 {
        return Err(Fail(NotEnoughData));
      }
      cropping := Some(ParseCropping(c));
    }
    return Ok(WindowInformationObject(objectId, windowId, flag, x, y, cropping));
  }

  /** Fewer than 8 bytes left: the record read comes back short. */
  lemma WindowInfoShortRead(data: seq<uint8>, pos: nat)
    requires pos <= |data| < pos + 8
    ensures WindowInfoAt(data, pos) == Read(Err(Fail(NotEnoughData)), |data|)
  {
  }

  /** A cropped flag other than 0x00 and 0x40 is rejected after reading the 8-byte record. */
  lemma WindowInfoBadFlag(data: seq<uint8>, pos: nat)
    requires pos + 8 <= |data| && data[pos + 3] != 0x00 && data[pos + 3] != 0x40
    ensures WindowInfoAt(data, pos) == Read(Err(Fail(InvalidCroppedFlag)), pos + 8)
  {
  }

  /** Flag 0x40 with fewer than 8 bytes after the record: the cropping read comes back short. */
  lemma WindowInfoCroppingShort(data: seq<uint8>, pos: nat)
    requires pos + 8 <= |data| < pos + 16 && data[pos + 3] == 0x40
    ensures WindowInfoAt(data, pos) == Read(Err(Fail(NotEnoughData)), |data|)
  {
  }

  /** A record that is read is well formed, takes 8 bytes or 16 with cropping,
      and those bytes are exactly its encoding. */
  lemma WindowInfoAtEncodes(data: seq<uint8>, pos: nat)
    requires pos <= |data| && WindowInfoAt(data, pos).result.Ok?
    ensures ValidWindowInfo(WindowInfoAt(data, pos).result.value)
    ensures data[pos..WindowInfoAt(data, pos).next] == EncodeWindowInfo(WindowInfoAt(data, pos).result.value)
  {
    var r := WindowInfoAt(data, pos);
    var w := r.result.value;
    var b := data[pos..pos + 8];
    Bytes16RoundTrip(b[0..2]);
    Bytes16RoundTrip(b[4..6]);
    Bytes16RoundTrip(b[6..8]);
    assert b == b[0..2] + [b[2], b[3]] + b[4..6] + b[6..8];
    if w.croppingInfo.Some? {
      var c := data[pos + 8..pos + 16];
      ParseCroppingEncodes(c);
      assert data[pos..pos + 16] == b + c;
    }
  }

  /** A well-formed record's encoding is read back as that record, consuming exactly its bytes. */
  lemma WindowInfoAtOfEncoding(data: seq<uint8>, pos: nat, w: WindowInformationObject)
    requires ValidWindowInfo(w)
    requires pos + |EncodeWindowInfo(w)| <= |data| && data[pos..pos + |EncodeWindowInfo(w)|] == EncodeWindowInfo(w)
    ensures WindowInfoAt(data, pos) == Read(Ok(w), pos + |EncodeWindowInfo(w)|)
  {
    var e := EncodeWindowInfo(w);
    var b := data[pos..pos + 8];
    assert b == e[..8];
    assert b[0..2] == Bytes16(w.objectId) && b[4..6] == Bytes16(w.x) && b[6..8] == Bytes16(w.y);
    U16RoundTrip(w.objectId);
    U16RoundTrip(w.x);
    U16RoundTrip(w.y);
    if w.croppingInfo.Some? {
      var ci := w.croppingInfo.value;
      var c := data[pos + 8..pos + 16];
      assert c == e[8..16] == EncodeCropping(ci);
      ParseCroppingOfEncoding(ci);
    }
  }
}
