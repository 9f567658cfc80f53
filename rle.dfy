/** The run-length decoder for object bitmaps (`decode_rle`). */
module Rle {
  import opened Base

  /** `is_color`: bit 7 (`byte >> 7 == 1`) asks for an explicit colour byte. */
  predicate IsColor(b: uint8)
    ensures IsColor(b) <==> 0x80 <= b
  {
    b / 0x80 == 1
  }

  /** `is_long`: bit 6 (`(byte >> 6) & 1 == 1`) asks for a second length byte. */
  predicate IsLong(b: uint8)
    ensures IsLong(b) <==> 0x40 <= b % 0x80
  {
    (b / 0x40) % 2 == 1
  }

  /** `info & 0b0011_1111`: the high length bits of a run. */
  function LenBits(b: uint8): (r: uint8)
    ensures r < 0x40 && (b - r) % 0x40 == 0
  {
    b % 0x40
  }

  /** One unit of the compressed stream, as the decoder tells them apart. */
  datatype Unit =
    | Literal(value: uint8)                              // a non-zero first byte
    | LineEnd                                            // 0x00 0x00
    | Run(long: bool, length: nat, color: Option<uint8>) // 0x00, control byte, [low length], [colour]

  /** The units an encoder can write: a literal is non-zero, a run length fits
      its 6 or 14 bits, and a run's control byte is not 0x00 (the line end). */
  ghost predicate ValidUnit(u: Unit) {
    match u
    case Literal(v) => v != 0
    case LineEnd => true
    case Run(long, length, color) =>
      (if long then length < 0x4000 else length < 0x40) && (long || length != 0 || color.Some?)
  }

  /** The control byte of a run: colour bit, long bit, and the high length bits. */
  function ControlByte(long: bool, length: nat, colored: bool): uint8
    requires if long then length < 0x4000 else length < 0x40
  {
    (if colored then 0x80 else 0) + (if long then 0x40 + length / 0x100 else length)
  }

  function EncodeUnit(u: Unit): (s: seq<uint8>)
    requires ValidUnit(u)
    ensures 0 < |s|
  {
    match u
    case Literal(v) => [v]
    case LineEnd => [0, 0]
    case Run(long, length, color) =>
      [0, ControlByte(long, length, color.Some?)]
      + (if long then [length % 0x100] else [])
      + (if color.Some? then [color.value] else [])
  }

  /** The pixels the source pushes for one unit. A literal pushes the constant
      1, not its own byte; a run pushes `length` copies of its colour, 0 by default. */
  function Pixels(u: Unit): seq<uint8> {
    match u
    case Literal(_) => [1]
    case LineEnd => []
    case Run(_, length, color) => Repeat(if color.Some? then color.value else 0, length)
  }

  function Repeat(c: uint8, n: nat): (s: seq<uint8>)
    ensures |s| == n && forall i :: 0 <= i < n ==> s[i] == c
  {
    if n == 0 then [] else Repeat(c, n - 1) + [c]
  }

  /** Reads the unit that starts at `pos`; a unit cut short by the end of the
      data is the panic of `read_u8().unwrap()`. */
  function UnitAt(data: seq<uint8>, pos: nat): (r: Read<Unit>)
    requires pos < |data|
    ensures r.result.Ok? ==> pos < r.next <= |data|
    ensures r.result.Err? ==> r.result.error == Panic(RleTruncated)
  {
    if data[pos] != 0 then Read(Ok(Literal(data[pos])), pos + 1)
    else if pos + 1 == |data| then Read(Err(Panic(RleTruncated)), |data|)
    else if data[pos + 1] == 0 then Read(Ok(LineEnd), pos + 2)
    else RunAt(data, pos + 2, data[pos + 1])
  }

  /** Reads the rest of a run whose non-zero control byte `info` came just before `q`:
      the low length byte when the long bit is set, then the colour byte when the
      colour bit is set. */
  function RunAt(data: seq<uint8>, q: nat, info: uint8): (r: Read<Unit>)
    requires q <= |data|
    ensures r.result.Ok? ==> q <= r.next <= |data|
    ensures r.result.Err? ==> r.result.error == Panic(RleTruncated)
  {
    var colored, long, high := IsColor(info), IsLong(info), LenBits(info);
    if long && q == |data| then Read(Err(Panic(RleTruncated)), |data|)
    else
      var length := if long then high as int * 0x100 + data[q] else high as int;
      var c := if long then q + 1 else q;
      if colored && c == |data| then Read(Err(Panic(RleTruncated)), |data|)
      else if colored then Read(Ok(Run(long, length, Some(data[c]))), c + 1)
      else Read(Ok(Run(long, length, None)), c)
  }

  /** A unit that is read is valid, and the bytes it consumed are exactly its encoding. */
  lemma UnitAtEncodes(data: seq<uint8>, pos: nat)
    requires pos < |data| && UnitAt(data, pos).result.Ok?
    ensures ValidUnit(UnitAt(data, pos).result.value)
    ensures data[pos..UnitAt(data, pos).next] == EncodeUnit(UnitAt(data, pos).result.value)
  {
    var r := UnitAt(data, pos);
    if data[pos] == 0 && data[pos + 1] != 0 {
      var info := data[pos + 1];
      var long, length := IsLong(info), r.result.value.length;
      ControlByteOf(info, long, length, IsColor(info));
      if long {
        assert data[pos..pos + 3] == [0, info, data[pos + 2]];
      }
      assert data[pos..r.next] == EncodeUnit(r.result.value);
    }
  }

  /** The control byte a run was read from is the one its encoding writes. */
  lemma ControlByteOf(info: uint8, long: bool, length: nat, colored: bool)
    requires info != 0 && long == IsLong(info) && colored == IsColor(info)
    requires if long then length / 0x100 == LenBits(info) && length < 0x4000 else length == LenBits(info)
    ensures ControlByte(long, length, colored) == info
  {
  }

  /** The output of `decode_rle` on `data[pos..]`: each unit's pixels in order. */
  function DecodeFrom(data: seq<uint8>, pos: nat): (r: Result<seq<uint8>>)
    requires pos <= |data|
    ensures r.Err? ==> r.error == Panic(RleTruncated)
    decreases |data| - pos
  {
    if pos == |data| then Ok([])
    else
      match UnitAt(data, pos)
      case Read(Err(e), _) => Err(e)
      case Read(Ok(u), next) =>
        match DecodeFrom(data, next)
        case Err(e) => Err(e)
        case Ok(rest) => Ok(Pixels(u) + rest)
  }

  /** The reads of one iteration of `decode_rle`'s loop: the first byte, then for a
      run the control byte, the low length byte and the colour byte as its bits ask. */
  method ReadUnit(data: seq<uint8>, pos: nat) returns (r: Read<Unit>)
    requires pos < |data|
    ensures r == UnitAt(data, pos)
  {
    var c := pos;
    var b0 := data[c];
    c := c + 1;
    if b0 != 0 {
      return Read(Ok(Literal(b0)), c);
    }
    if c == |data| {
      return Read(Err(Panic(RleTruncated)), |data|);
    }
    var info := data[c];
    c := c + 1;
    if info == 0 {
      return Read(Ok(LineEnd), c);
    }
    var colored, long, high := IsColor(info), IsLong(info), LenBits(info);
    assert high / 0x40 == 0;  // the source's `assert_eq!(len_u8 >> 6, 0)` cannot fail
    var len: nat;
    if long {
      if c == |data| {
        return Read(Err(Panic(RleTruncated)), |data|);
      }
      len := high as int * 0x100 + data[c];
      c := c + 1;
    } else {
      len := high;
    }
    var color: Option<uint8> := None;
    if colored {
      if c == |data| {
        return Read(Err(Panic(RleTruncated)), |data|);
      }
      color := Some(data[c]);
      c := c + 1;
    }
    return Read(Ok(Run(long, len, color)), c);
  }

  /** `decode_rle`: a cursor walks the data unit by unit and grows the output. */
  method DecodeRle(data: seq<uint8>) returns (r: Result<seq<uint8>>)
    ensures r == DecodeFrom(data, 0)
  {
    var pos: nat := 0;
    var output: seq<uint8> := [];
    PrefixedNothing(DecodeFrom(data, 0));
    while true
      invariant pos <= |data|
      invariant DecodeFrom(data, 0) == Prefixed(output, DecodeFrom(data, pos))
      decreases |data| - pos
    {
      if pos >= |data| {
        break;
      }
      var step := ReadUnit(data, pos);
      if step.result.Err? {
        DecodeTruncated(data, pos, output);
        return Err(step.result.error);
      }
      DecodeAdvance(data, pos, output);
      match step.result.value {
        case Literal(_) =>
          output := output + [1];
        case LineEnd =>
          assert output + Pixels(LineEnd) == output;
        case Run(_, len, color) =>
          var c := if color.Some? then color.value else 0;
          ghost var before := output;
          var k := 0;
          while k < len
            invariant k <= len
            invariant output == before + Repeat(c, k)
          {
            output := output + [c];
            k := k + 1;
          }
      }
      pos := step.next;
    }
    assert output + [] == output;
    return Ok(output);
  }

  lemma PrefixedNothing(r: Result<seq<uint8>>)
    ensures Prefixed([], r) == r
  {
    if r.Ok? {
      assert [] + r.value == r.value;
    }
  }

  /** A unit cut short ends the whole decoding in the panic. */
  lemma DecodeTruncated(data: seq<uint8>, start: nat, out: seq<uint8>)
    requires start < |data| && UnitAt(data, start).result.Err?
    ensures Prefixed(out, DecodeFrom(data, start)) == Err(Panic(RleTruncated))
  {
  }

  /** Decoding one more unit moves its pixels from the pending rest to the output. */
  lemma DecodeAdvance(data: seq<uint8>, start: nat, out: seq<uint8>)
    requires start < |data| && UnitAt(data, start).result.Ok?
    ensures Prefixed(out, DecodeFrom(data, start))
         == Prefixed(out + Pixels(UnitAt(data, start).result.value), DecodeFrom(data, UnitAt(data, start).next))
  {
    var px := Pixels(UnitAt(data, start).result.value);
    match DecodeFrom(data, UnitAt(data, start).next) {
      case Ok(rest) => assert out + (px + rest) == (out + px) + rest;
      case Err(_) =>
    }
  }

  /** Prepends pixels already written to the result of decoding the rest. */
  function Prefixed(out: seq<uint8>, r: Result<seq<uint8>>): Result<seq<uint8>> {
    match r
    case Ok(px) => Ok(out + px)
    case Err(e) => Err(e)
  }

  /** The units of `data[pos..]` in order, or the panic that cuts the scan short. */
  function UnitsFrom(data: seq<uint8>, pos: nat): Result<seq<Unit>>
    requires pos <= |data|
    decreases |data| - pos
  {
    if pos == |data| then Ok([])
    else
      match UnitAt(data, pos)
      case Read(Err(e), _) => Err(e)
      case Read(Ok(u), next) =>
        match UnitsFrom(data, next)
        case Err(e) => Err(e)
        case Ok(rest) => Ok([u] + rest)
  }

  ghost predicate AllValid(us: seq<Unit>) {
    forall i :: 0 <= i < |us| ==> ValidUnit(us[i])
  }

  function EncodeUnits(us: seq<Unit>): seq<uint8>
    requires AllValid(us)
  {
    if us == [] then [] else EncodeUnit(us[0]) + EncodeUnits(us[1..])
  }

  function AllPixels(us: seq<Unit>): seq<uint8> {
    if us == [] then [] else Pixels(us[0]) + AllPixels(us[1..])
  }

  /** The output is the in-order concatenation of the pixels of each unit, and
      the decoder panics exactly when the scan into units does. */
  lemma {:induction false} DecodeIsAllPixels(data: seq<uint8>, pos: nat)
    requires pos <= |data|
    ensures DecodeFrom(data, pos).Ok? <==> UnitsFrom(data, pos).Ok?
    ensures UnitsFrom(data, pos).Ok? ==> DecodeFrom(data, pos).value == AllPixels(UnitsFrom(data, pos).value)
    decreases |data| - pos
  {
    if pos < |data| {
      var r := UnitAt(data, pos);
      if r.result.Ok? {
        DecodeIsAllPixels(data, r.next);
        if UnitsFrom(data, r.next).Ok? {
          var us := UnitsFrom(data, r.next).value;
          assert ([r.result.value] + us)[1..] == us;
        }
      }
    }
  }

  /** Scanning then re-encoding gives back the input. */
  lemma {:induction false} UnitsFromEncodes(data: seq<uint8>, pos: nat)
    requires pos <= |data| && UnitsFrom(data, pos).Ok?
    ensures AllValid(UnitsFrom(data, pos).value)
    ensures EncodeUnits(UnitsFrom(data, pos).value) == data[pos..]
    decreases |data| - pos
  {
    if pos < |data| {
      var r := UnitAt(data, pos);
      var u, rest := r.result.value, UnitsFrom(data, r.next).value;
      assert UnitsFrom(data, pos).value == [u] + rest;
      UnitAtEncodes(data, pos);
      UnitsFromEncodes(data, r.next);
      EncodeUnitsCons(u, rest);
      assert data[pos..] == data[pos..r.next] + data[r.next..];
    }
  }

  /** Putting a valid unit in front keeps the units valid and puts its encoding in front. */
  lemma EncodeUnitsCons(u: Unit, rest: seq<Unit>)
    requires ValidUnit(u) && AllValid(rest)
    ensures AllValid([u] + rest)
    ensures EncodeUnits([u] + rest) == EncodeUnit(u) + EncodeUnits(rest)
  {
    var us := [u] + rest;
    assert us[0] == u && us[1..] == rest;
    forall i | 0 <= i < |us| ensures ValidUnit(us[i]) {
      if i > 0 {
        assert us[i] == rest[i - 1];
      }
    }
  }

  /** The flag and length bits of a run's control byte are the ones it was built from. */
  lemma ControlByteBits(long: bool, length: nat, colored: bool)
    requires if long then length < 0x4000 else length < 0x40
    ensures IsColor(ControlByte(long, length, colored)) == colored
    ensures IsLong(ControlByte(long, length, colored)) == long
    ensures LenBits(ControlByte(long, length, colored)) == if long then length / 0x100 else length
  {
  }

  /** A unit's encoding is read back as that unit, consuming exactly its bytes. */
  lemma UnitAtOfEncoding(data: seq<uint8>, pos: nat, u: Unit)
    requires ValidUnit(u)
    requires pos + |EncodeUnit(u)| <= |data| && data[pos..pos + |EncodeUnit(u)|] == EncodeUnit(u)
    ensures UnitAt(data, pos) == Read(Ok(u), pos + |EncodeUnit(u)|)
  {
    var e := EncodeUnit(u);
    assert data[pos] == e[0] by { assert data[pos..pos + |e|][0] == e[0]; }
    match u
    case Literal(_) =>
    case LineEnd =>
      assert data[pos + 1] == e[1] by { assert data[pos..pos + |e|][1] == e[1]; }
    case Run(long, length, color) =>
      assert data[pos + 1] == e[1] by { assert data[pos..pos + |e|][1] == e[1]; }
      ControlByteBits(long, length, color.Some?);
      if long {
        assert data[pos + 2] == e[2] by { assert data[pos..pos + |e|][2] == e[2]; }
        assert length == (length / 0x100) * 0x100 + length % 0x100;
      }
      if color.Some? {
        var q := |e| - 1;
        assert data[pos + q] == e[q] by { assert data[pos..pos + |e|][q] == e[q]; }
      }
  }

  /** The encoding of a non-empty unit sequence is the first unit's encoding
      followed by the encoding of the others. */
  lemma SplitEncoding(data: seq<uint8>, pos: nat, us: seq<Unit>)
    requires AllValid(us) && us != []
    requires pos <= |data| && data[pos..] == EncodeUnits(us)
    ensures AllValid(us[1..])
    ensures pos + |EncodeUnit(us[0])| <= |data|
    ensures data[pos..pos + |EncodeUnit(us[0])|] == EncodeUnit(us[0])
    ensures data[pos + |EncodeUnit(us[0])|..] == EncodeUnits(us[1..])
  {
    var e, tail := EncodeUnit(us[0]), EncodeUnits(us[1..]);
    assert data[pos..] == e + tail;
    assert data[pos..pos + |e|] == data[pos..][..|e|];
    assert data[pos + |e|..] == data[pos..][|e|..];
    forall i | 0 <= i < |us[1..]| ensures ValidUnit(us[1..][i]) {
      assert us[1..][i] == us[i + 1];
    }
  }

  /** Scanning moves one read unit in front of the units of the rest. */
  lemma UnitsFromStep(data: seq<uint8>, pos: nat, next: nat, us: seq<Unit>)
    requires us != [] && pos < |data| && UnitAt(data, pos) == Read(Ok(us[0]), next)
    requires UnitsFrom(data, next) == Ok(us[1..])
    ensures UnitsFrom(data, pos) == Ok(us)
  {
    assert us == [us[0]] + us[1..];
  }

  /** Encoding then scanning gives back the units. */
  lemma {:induction false} UnitsFromOfEncoding(data: seq<uint8>, pos: nat, us: seq<Unit>)
    requires AllValid(us)
    requires pos <= |data| && data[pos..] == EncodeUnits(us)
    ensures UnitsFrom(data, pos) == Ok(us)
    decreases us
  {
    if us != [] {
      var n := |EncodeUnit(us[0])|;
      SplitEncoding(data, pos, us);
      UnitAtOfEncoding(data, pos, us[0]);
      UnitsFromOfEncoding(data, pos + n, us[1..]);
      UnitsFromStep(data, pos, pos + n, us);
    }
  }

  /** Decoding an encoded stream of units yields their pixels in order. */
  lemma DecodeOfEncoding(us: seq<Unit>)
    requires AllValid(us)
    ensures DecodeFrom(EncodeUnits(us), 0) == Ok(AllPixels(us))
  {
    var data := EncodeUnits(us);
    UnitsFromOfEncoding(data, 0, us);
    DecodeIsAllPixels(data, 0);
  }

  /** Empty input decodes to no pixels. */
  lemma DecodeEmpty()
    ensures DecodeFrom([], 0) == Ok([])
  {
  }

  /** A non-zero first byte is one unit of one byte that pushes the constant 1,
      whatever its value: `[0x07]` gives `[1]`, not `[7]`. */
  lemma LiteralPushesOne(b: uint8)
    requires b != 0
    ensures UnitAt([b], 0) == Read(Ok(Literal(b)), 1)
    ensures DecodeFrom([b], 0) == Ok([1])
  {
    assert [1] + [] == [1];
  }

  /** `0x00 0x00` pushes nothing and moves the cursor by exactly two bytes. */
  lemma LineEndPushesNothing(data: seq<uint8>, pos: nat)
    requires pos + 2 <= |data| && data[pos] == 0 && data[pos + 1] == 0
    ensures UnitAt(data, pos) == Read(Ok(LineEnd), pos + 2)
    ensures DecodeFrom(data, pos) == DecodeFrom(data, pos + 2)
  {
    match DecodeFrom(data, pos + 2) {
      case Ok(rest) => assert [] + rest == rest;
      case Err(_) =>
    }
  }

  /** A short run with a colour: `0x85` has the colour bit and length 5. */
  lemma ShortRunExample()
    ensures DecodeFrom([0x00, 0x85, 0x09], 0) == Ok([9, 9, 9, 9, 9])
  {
    assert UnitAt([0x00, 0x85, 0x09], 0) == Read(Ok(Run(false, 5, Some(9))), 3);
    assert Repeat(9, 5) + [] == [9, 9, 9, 9, 9];
  }

  /** A long run in the default colour: `0x41 0x02` is length 0x0102 = 258. */
  lemma LongRunExample()
    ensures DecodeFrom([0x00, 0x41, 0x02], 0) == Ok(Repeat(0, 258))
  {
    assert UnitAt([0x00, 0x41, 0x02], 0) == Read(Ok(Run(true, 258, None)), 3);
    assert Repeat(0, 258) + [] == Repeat(0, 258);
  }

  /** A unit cut short after `0x00`, or before its length or colour byte, panics. */
  lemma TruncatedExamples()
    ensures DecodeFrom([0x00], 0) == Err(Panic(RleTruncated))
    ensures DecodeFrom([0x00, 0x41], 0) == Err(Panic(RleTruncated))
    ensures DecodeFrom([0x00, 0x85], 0) == Err(Panic(RleTruncated))
    ensures DecodeFrom([0x00, 0xC1, 0x02], 0) == Err(Panic(RleTruncated))
  {
  }

  /** A run read from the data is at most 16383 pixels long, and its unit
      takes 2, 3 or 4 bytes: one more for the long bit, one more for the colour bit. */
  lemma RunShape(data: seq<uint8>, pos: nat)
    requires pos < |data| && UnitAt(data, pos).result.Ok? && UnitAt(data, pos).result.value.Run?
    ensures UnitAt(data, pos).result.value.length < 0x4000
    ensures UnitAt(data, pos).next - pos
         == 2 + (if UnitAt(data, pos).result.value.long then 1 else 0)
              + (if UnitAt(data, pos).result.value.color.Some? then 1 else 0)
  {
    UnitAtEncodes(data, pos);
  }
}
