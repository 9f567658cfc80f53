/** The top-level loop of the decoder (`run` in `src/pgs/mod.rs`): segment after
    segment, the header and then the payload are read and each is printed as
    one line; the loop stops only at the first error. The input file is the
    `input` sequence, and what `println!` writes is returned as a list of lines. */
module Pgs {
  import opened Base
  import opened Buffer
  import opened Composition
  import opened Segment

  /** One line printed by `run`. */
  datatype Line =
    | HeaderLine(header: SegmentHeader)
    | PcsLine(pcs: PresentationCompositionSegment)
    | WdsLine(wds: WindowDefinitionSegment)
    | PdsLine(pds: PaletteDefinitionSegment)
    | OdsLine(ods: ObjectDefinitionSegment)
    | EndLine

  /** Everything `run` printed, and the error it returned or panicked with. */
  datatype Trace = Trace(lines: seq<Line>, error: Error)

  /** One pass of the loop: the lines printed, the error that ended the run if
      there was one, and where the cursor was left. */
  datatype Step = Step(lines: seq<Line>, error: Option<Error>, next: nat)

  function Prefix(lines: seq<Line>, t: Trace): Trace {
    Trace(lines + t.lines, t.error)
  }

  /** The payload the loop reads for a segment of type `t`, as the line it prints. */
  function PayloadAt(data: seq<uint8>, pos: nat, t: SegmentType): (r: Read<Line>)
    requires pos <= |data|
    ensures pos <= r.next <= |data|
    ensures t == End ==> r == Read(Ok(EndLine), pos)
    ensures r.result.Ok? && t == Pcs ==> r.result.value.PcsLine?
    ensures r.result.Ok? && t == Wds ==> r.result.value.WdsLine?
    ensures r.result.Ok? && t == Pds ==> r.result.value.PdsLine?
    ensures r.result.Ok? && t == Ods ==> r.result.value.OdsLine?
  {
    match t
    case Pcs =>
      var p := PcsAt(data, pos);
      Read(if p.result.Ok? then Ok(PcsLine(p.result.value)) else Err(p.result.error), p.next)
    case Wds =>
      var w := WdsAt(data, pos);
      Read(if w.result.Ok? then Ok(WdsLine(w.result.value)) else Err(w.result.error), w.next)
    case Pds =>
      var p := PdsAt(data, pos);
      Read(if p.result.Ok? then Ok(PdsLine(p.result.value)) else Err(p.result.error), p.next)
    case Ods =>
      var o := OdsAt(data, pos);
      Read(if o.result.Ok? then Ok(OdsLine(o.result.value)) else Err(o.result.error), o.next)
    case End => Read(Ok(EndLine), pos)
  }

  /** One pass of the loop at `pos`. A pass that does not stop has printed the
      header and the payload and moved past at least the header; one that stops
      has printed at most the header. */
  function StepAt(data: seq<uint8>, pos: nat): (s: Step)
    requires pos <= |data|
    ensures pos <= s.next <= |data|
    ensures s.error.None? ==> |s.lines| == 2 && !s.lines[1].HeaderLine?
    ensures s.error.Some? ==> |s.lines| <= 1
    ensures s.lines != [] ==> s.lines[0].HeaderLine? && pos + HeaderLen <= s.next
  {
    var h := HeaderAt(data, pos);
    match h.result
    case Err(e) => Step([], Some(e), h.next)
    case Ok(header) =>
      var p := PayloadAt(data, h.next, header.segType);
      match p.result
      case Err(e) => Step([HeaderLine(header)], Some(e), p.next)
      case Ok(line) => Step([HeaderLine(header), line], None, p.next)
  }

  /** `run` from `pos` on: passes of the loop until one stops. */
  function RunFrom(data: seq<uint8>, pos: nat): (t: Trace)
    requires pos <= |data|
    decreases |data| - pos
  {
    var s := StepAt(data, pos);
    match s.error
    case Some(e) => Trace(s.lines, e)
    case None => Prefix(s.lines, RunFrom(data, s.next))
  }

  /** Every pass that goes on consumes a 13-byte header and prints two lines, so
      at most two lines are printed per 13 bytes of input. */
  lemma {:induction false} RunLinesBound(data: seq<uint8>, pos: nat)
    requires pos <= |data|
    ensures |RunFrom(data, pos).lines| * HeaderLen <= 2 * (|data| - pos)
    decreases |data| - pos
  {
    var s := StepAt(data, pos);
    if s.error.None? {
      RunLinesBound(data, s.next);
    }
  }

  /** The `match` on the segment type inside the loop of `run`. */
  method ReadPayload(buffer: BufferMngr, t: SegmentType) returns (r: Result<Line>)
    requires buffer.Valid()
    modifies buffer
    ensures buffer.Valid()
    ensures r == PayloadAt(buffer.buffer, old(buffer.cursor), t).result
    ensures buffer.cursor == PayloadAt(buffer.buffer, old(buffer.cursor), t).next
  {
    match t {
      case Pcs =>
        var pcs :- ReadPcs(buffer);
        r := Ok(PcsLine(pcs));
      case Wds =>
        var wds :- ReadWds(buffer);
        r := Ok(WdsLine(wds));
      case Pds =>
        var pds :- ReadPds(buffer);
        r := Ok(PdsLine(pds));
      case Ods =>
        var ods :- ReadOds(buffer);
        r := Ok(OdsLine(ods));
      case End =>
        r := Ok(EndLine);
    }
  }

  /** One pass of the `while let` loop of `run`: the header, its line, the payload, its line. */
  method RunStep(buffer: BufferMngr) returns (lines: seq<Line>, stop: Option<Error>)
    requires buffer.Valid()
    modifies buffer
    ensures buffer.Valid()
    ensures Step(lines, stop, buffer.cursor) == StepAt(buffer.buffer, old(buffer.cursor))
  {
    var header := ReadHeader(buffer);
    if header.Err? {
      return [], Some(header.error);
    }
    lines := [HeaderLine(header.value)];
    var line := ReadPayload(buffer, header.value.segType);
    if line.Err? {
      return lines, Some(line.error);
    }
    return lines + [line.value], None;
  }

  lemma PrefixTwice(a: seq<Line>, b: seq<Line>, t: Trace)
    ensures Prefix(a, Prefix(b, t)) == Prefix(a + b, t)
  {
    assert a + (b + t.lines) == a + b + t.lines;
  }

  method Run(input: seq<uint8>) returns (printed: seq<Line>, error: Error)
    ensures Trace(printed, error) == RunFrom(input, 0)
  {
    var buffer := new BufferMngr(input);
    printed := [];
    assert Prefix([], RunFrom(input, 0)) == RunFrom(input, 0) by {
      assert [] + RunFrom(input, 0).lines == RunFrom(input, 0).lines;
    }
    while true
      invariant buffer.Valid() && buffer.buffer == input
      invariant RunFrom(input, 0) == Prefix(printed, RunFrom(input, buffer.cursor))
      decreases |input| - buffer.cursor
    {
      ghost var start := buffer.cursor;
      var lines, stop := RunStep(buffer);
      if stop.Some? {
        return printed + lines, stop.value;
      }
      PrefixTwice(printed, lines, RunFrom(input, buffer.cursor));
      printed := printed + lines;
    }
  }

  // ---------------------------------------------------------------------------
  // Streams in the layout the decoder reads

  /** A segment's payload as the decoder takes it: the records of a composition
      segment, the eleventh byte of a window segment, one palette entry. */
  datatype Payload =
    | PcsPayload(pcs: PresentationCompositionSegment, objects: seq<WindowInformationObject>)
    | WdsPayload(wds: WindowDefinitionSegment, spare: uint8)
    | PdsPayload(pds: PaletteDefinitionSegment)
    | OdsPayload(ods: ObjectDefinitionSegment)
    | EndPayload

  datatype SegmentRecord = SegmentRecord(header: SegmentHeader, payload: Payload)

  function PayloadType(p: Payload): SegmentType {
    match p
    case PcsPayload(_, _) => Pcs
    case WdsPayload(_, _) => Wds
    case PdsPayload(_) => Pds
    case OdsPayload(_) => Ods
    case EndPayload => End
  }

  ghost predicate ValidPayload(p: Payload) {
    match p
    case PcsPayload(pcs, objects) =>
      ValidPcs(pcs) && AllValidWindowInfos(objects) && |objects| == pcs.numberOfCompositionObjects
    case OdsPayload(ods) => ValidOds(ods)
    case _ => true
  }

  ghost predicate ValidRecord(r: SegmentRecord) {
    r.header.segType == PayloadType(r.payload) && ValidPayload(r.payload)
  }

  function EncodePayload(p: Payload): seq<uint8> {
    match p
    case PcsPayload(pcs, objects) => EncodePcs(pcs) + EncodeWindowInfos(objects)
    case WdsPayload(wds, spare) => EncodeWds(wds) + [spare]
    case PdsPayload(pds) => EncodePds(pds)
    case OdsPayload(ods) => EncodeOds(ods)
    case EndPayload => []
  }

  function EncodeRecord(r: SegmentRecord): seq<uint8> {
    EncodeHeader(r.header) + EncodePayload(r.payload)
  }

  function EncodeRecords(rs: seq<SegmentRecord>): seq<uint8> {
    if rs == [] then [] else EncodeRecord(rs[0]) + EncodeRecords(rs[1..])
  }

  function PayloadLine(p: Payload): Line {
    match p
    case PcsPayload(pcs, _) => PcsLine(pcs)
    case WdsPayload(wds, _) => WdsLine(wds)
    case PdsPayload(pds) => PdsLine(pds)
    case OdsPayload(ods) => OdsLine(ods)
    case EndPayload => EndLine
  }

  /** What `run` prints for a segment: its header, then its payload. */
  function RecordLines(r: SegmentRecord): seq<Line> {
    [HeaderLine(r.header), PayloadLine(r.payload)]
  }

  function LinesOf(rs: seq<SegmentRecord>): seq<Line> {
    if rs == [] then [] else RecordLines(rs[0]) + LinesOf(rs[1..])
  }

  /** An encoded payload is read back as its line, consuming exactly its bytes. */
  lemma PayloadAtOfEncoding(data: seq<uint8>, pos: nat, p: Payload)
    requires ValidPayload(p)
    requires pos + |EncodePayload(p)| <= |data| && data[pos..pos + |EncodePayload(p)|] == EncodePayload(p)
    ensures PayloadAt(data, pos, PayloadType(p)) == Read(Ok(PayloadLine(p)), pos + |EncodePayload(p)|)
  {
    match p
    case PcsPayload(pcs, objects) => PcsAtOfEncoding(data, pos, pcs, objects);
    case WdsPayload(wds, spare) => ParseWdsOfEncoding(wds, spare);
    case PdsPayload(pds) => ParsePdsRoundTrip(EncodePds(pds), pds);
    case OdsPayload(ods) => OdsAtOfEncoding(data, pos, ods);
    case EndPayload =>
  }

  /** An encoded segment is one pass of the loop: it prints the segment's two lines
      and moves past exactly its bytes. */
  lemma StepAtOfEncoding(data: seq<uint8>, pos: nat, r: SegmentRecord)
    requires ValidRecord(r)
    requires pos + |EncodeRecord(r)| <= |data| && data[pos..pos + |EncodeRecord(r)|] == EncodeRecord(r)
    ensures StepAt(data, pos) == Step(RecordLines(r), None, pos + |EncodeRecord(r)|)
  {
    SliceSplit(data, pos, EncodeHeader(r.header), EncodePayload(r.payload));
    ParseHeaderOfEncoding(r.header);
    assert HeaderAt(data, pos) == Read(Ok(r.header), pos + HeaderLen);
    PayloadAtOfEncoding(data, pos + HeaderLen, r.payload);
  }

  lemma RunContinues(data: seq<uint8>, pos: nat, lines: seq<Line>, next: nat)
    requires pos <= |data| && StepAt(data, pos) == Step(lines, None, next)
    ensures next <= |data| && RunFrom(data, pos) == Prefix(lines, RunFrom(data, next))
  {
  }

  /** An encoded segment at `pos` is printed, and the run goes on after its bytes. */
  lemma RunOfRecord(data: seq<uint8>, pos: nat, r: SegmentRecord)
    requires ValidRecord(r)
    requires pos + |EncodeRecord(r)| <= |data| && data[pos..pos + |EncodeRecord(r)|] == EncodeRecord(r)
    ensures RunFrom(data, pos) == Prefix(RecordLines(r), RunFrom(data, pos + |EncodeRecord(r)|))
  {
    StepAtOfEncoding(data, pos, r);
    RunContinues(data, pos, RecordLines(r), pos + |EncodeRecord(r)|);
  }

  /** Encoded records are the first record's bytes followed by the others'. */
  lemma RecordsSplit(data: seq<uint8>, pos: nat, rs: seq<SegmentRecord>)
    requires rs != [] && forall i :: 0 <= i < |rs| ==> ValidRecord(rs[i])
    requires pos + |EncodeRecords(rs)| == |data| && data[pos..] == EncodeRecords(rs)
    ensures ValidRecord(rs[0]) && forall i :: 0 <= i < |rs[1..]| ==> ValidRecord(rs[1..][i])
    ensures pos + |EncodeRecord(rs[0])| <= |data| && data[pos..pos + |EncodeRecord(rs[0])|] == EncodeRecord(rs[0])
    ensures pos + |EncodeRecord(rs[0])| + |EncodeRecords(rs[1..])| == |data|
    ensures data[pos + |EncodeRecord(rs[0])|..] == EncodeRecords(rs[1..])
  {
    SuffixSplit(data, pos, EncodeRecord(rs[0]), EncodeRecords(rs[1..]));
    ValidTail(rs);
  }

  lemma SuffixSplit(data: seq<uint8>, pos: nat, x: seq<uint8>, y: seq<uint8>)
    requires pos + |x| + |y| == |data| && data[pos..] == x + y
    ensures data[pos..pos + |x|] == x && data[pos + |x|..] == y
  {
    assert data[pos..pos + |x|] == data[pos..][..|x|];
    assert data[pos + |x|..] == data[pos..][|x|..];
  }

  lemma ValidTail(rs: seq<SegmentRecord>)
    requires rs != [] && forall i :: 0 <= i < |rs| ==> ValidRecord(rs[i])
    ensures forall i :: 0 <= i < |rs[1..]| ==> ValidRecord(rs[1..][i])
  {
    forall i | 0 <= i < |rs[1..]| ensures ValidRecord(rs[1..][i]) {
      assert rs[1..][i] == rs[i + 1];
    }
  }

  /** A stream of well-formed segments, in the layout the decoder reads, is printed
      segment by segment; the loop then asks for one more header and panics at
      the end of the input. */
  lemma {:induction false} RunOfEncoding(data: seq<uint8>, pos: nat, rs: seq<SegmentRecord>)
    requires forall i :: 0 <= i < |rs| ==> ValidRecord(rs[i])
    requires pos + |EncodeRecords(rs)| == |data| && data[pos..] == EncodeRecords(rs)
    ensures RunFrom(data, pos) == Trace(LinesOf(rs), Panic(SliceOutOfRange))
    decreases rs
  {
    if rs == [] {
      RunAtEnd(data, pos);
    } else {
      RecordsSplit(data, pos, rs);
      RunOfEncoding(data, pos + |EncodeRecord(rs[0])|, rs[1..]);
      RunOfRecord(data, pos, rs[0]);
      LinesOfCons(rs, Panic(SliceOutOfRange));
    }
  }

  /** Fewer than 13 bytes left: the header read panics and nothing is printed. */
  lemma RunAtEnd(data: seq<uint8>, pos: nat)
    requires pos <= |data| < pos + HeaderLen
    ensures RunFrom(data, pos) == Trace([], Panic(SliceOutOfRange))
  {
    assert StepAt(data, pos) == Step([], Some(Panic(SliceOutOfRange)), pos);
  }

  lemma LinesOfCons(rs: seq<SegmentRecord>, e: Error)
    requires rs != []
    ensures Prefix(RecordLines(rs[0]), Trace(LinesOf(rs[1..]), e)) == Trace(LinesOf(rs), e)
  {
  }

  /** A payload that is read is a well-formed payload of that type whose encoding
      is exactly the bytes read. */
  lemma PayloadAtEncodes(data: seq<uint8>, pos: nat, t: SegmentType)
    requires pos <= |data| && PayloadAt(data, pos, t).result.Ok?
    ensures exists p :: ValidPayload(p) && PayloadType(p) == t
                        && EncodePayload(p) == data[pos..PayloadAt(data, pos, t).next]
                        && PayloadLine(p) == PayloadAt(data, pos, t).result.value
  {
    var payload: Payload;
    match t {
      case Pcs =>
        PcsAtConsumes(data, pos);
        var pcs := PcsAt(data, pos).result.value;
        payload := PcsPayload(pcs, WindowInfosAt(data, pos + PcsLen, pcs.numberOfCompositionObjects).result.value);
      case Wds =>
        var b := data[pos..pos + WdsLen];
        ParseWdsEncodes(b);
        assert b == b[..10] + [b[10]];
        payload := WdsPayload(ParseWds(b), b[10]);
      case Pds =>
        var b := data[pos..pos + PdsLen];
        ParsePdsRoundTrip(b, ParsePds(b));
        payload := PdsPayload(ParsePds(b));
      case Ods =>
        OdsAtConsumes(data, pos);
        payload := OdsPayload(OdsAt(data, pos).result.value);
      case End =>
        payload := EndPayload;
    }
    assert ValidPayload(payload) && PayloadType(payload) == t;
  }

  /** A pass of the loop that goes on has read a well-formed segment: the bytes it
      moved past are that segment's encoding and the lines it printed are its lines. */
  lemma StepAtEncodes(data: seq<uint8>, pos: nat)
    requires pos <= |data| && StepAt(data, pos).error.None?
    ensures exists r :: ValidRecord(r) && EncodeRecord(r) == data[pos..StepAt(data, pos).next]
                        && RecordLines(r) == StepAt(data, pos).lines
  {
    var s := StepAt(data, pos);
    var header := HeaderAt(data, pos).result.value;
    var q := pos + HeaderLen;
    ParseHeaderEncodes(data[pos..q]);
    PayloadAtEncodes(data, q, header.segType);
    var p :| ValidPayload(p) && PayloadType(p) == header.segType
             && EncodePayload(p) == data[q..s.next] && PayloadLine(p) == s.lines[1];
    var r := SegmentRecord(header, p);
    SliceJoin(data, pos, q, s.next);
    assert ValidRecord(r) && EncodeRecord(r) == data[pos..s.next] && RecordLines(r) == s.lines;
  }

  /** What `run` prints alternates: a header line, then the line of its payload. */
  lemma {:induction false} RunAlternates(data: seq<uint8>, pos: nat)
    requires pos <= |data|
    ensures forall i :: 0 <= i < |RunFrom(data, pos).lines| ==>
      (RunFrom(data, pos).lines[i].HeaderLine? <==> i % 2 == 0)
    decreases |data| - pos
  {
    var s := StepAt(data, pos);
    if s.error.None? {
      RunAlternates(data, s.next);
      var rest := RunFrom(data, s.next).lines;
      forall i | 0 <= i < |RunFrom(data, pos).lines|
        ensures RunFrom(data, pos).lines[i].HeaderLine? <==> i % 2 == 0
      {
        if i >= 2 {
          assert RunFrom(data, pos).lines[i] == rest[i - 2];
        }
      }
    }
  }

  // ---------------------------------------------------------------------------
  // Segments laid out as the format defines them

  /** A header read at `pos` whose first byte is not 'P' ends the run with a missing magic number. */
  lemma MissingMagicStops(data: seq<uint8>, pos: nat)
    requires pos + HeaderLen <= |data| && data[pos] != 0x50
    ensures RunFrom(data, pos) == Trace([], Fail(MissingMagic))
  {
    assert data[pos..pos + HeaderLen][0] == data[pos];
    assert StepAt(data, pos) == Step([], Some(Fail(MissingMagic)), pos + HeaderLen);
  }

  /** A segment followed by bytes that do not start with 'P' is printed, then the
      run stops for a missing magic number. */
  lemma RecordThenMissingMagic(r: SegmentRecord, tail: seq<uint8>)
    requires ValidRecord(r) && |tail| >= HeaderLen && tail[0] != 0x50
    ensures RunFrom(EncodeRecord(r) + tail, 0) == Trace(RecordLines(r), Fail(MissingMagic))
  {
    var data := EncodeRecord(r) + tail;
    assert data[0..|EncodeRecord(r)|] == EncodeRecord(r);
    RunOfRecord(data, 0, r);
    MissingMagicStops(data, |EncodeRecord(r)|);
    assert RecordLines(r) + [] == RecordLines(r);
  }

  /** A window definition segment with one window is 10 bytes long, but the
      decoder takes 11: it eats the first magic byte of the next header, and the
      next header read fails for a missing magic number. */
  lemma StandardWdsMisaligns(h: SegmentHeader, w: WindowDefinitionSegment, following: SegmentHeader, rest: seq<uint8>)
    requires h.segType == Wds && rest != []
    ensures RunFrom(EncodeHeader(h) + EncodeWds(w) + EncodeHeader(following) + rest, 0)
         == Trace([HeaderLine(h), WdsLine(w)], Fail(MissingMagic))
  {
    var r := SegmentRecord(h, WdsPayload(w, 0x50));
    var tail := EncodeHeader(following)[1..] + rest;
    assert EncodeHeader(following) == [0x50] + EncodeHeader(following)[1..];
    assert EncodeHeader(h) + EncodeWds(w) + EncodeHeader(following) + rest == EncodeRecord(r) + tail;
    RecordThenMissingMagic(r, tail);
  }

  /** A palette definition segment with more than one entry is read as its first
      entry: the next header read starts at the id of the second entry and fails
      for a missing magic number unless that id happens to be 0x50. */
  lemma StandardPdsMisaligns(h: SegmentHeader, first: PaletteDefinitionSegment, more: seq<uint8>, rest: seq<uint8>)
    requires h.segType == Pds && |more| >= 5 && |more| % 5 == 0 && more[0] != 0x50
    requires |more| + |rest| >= HeaderLen
    ensures RunFrom(EncodeHeader(h) + EncodePds(first) + more + rest, 0)
         == Trace([HeaderLine(h), PdsLine(first)], Fail(MissingMagic))
  {
    var r := SegmentRecord(h, PdsPayload(first));
    assert EncodeHeader(h) + EncodePds(first) + more + rest == EncodeRecord(r) + (more + rest);
    RecordThenMissingMagic(r, more + rest);
  }
}
