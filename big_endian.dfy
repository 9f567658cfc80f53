/** Big-endian decoding of `u16` and `u32` (`from_be_bytes`) and the matching encoders. */
module BigEndian {
  import opened Base

  /** `u16::from_be_bytes` */
  function U16(s: seq<uint8>): uint16
    requires |s| == 2
  {
    s[0] as int * 0x100 + s[1]
  }

  /** `u32::from_be_bytes` */
  function U32(s: seq<uint8>): uint32
    requires |s| == 4
  {
    U16(s[..2]) * 0x1_0000 + U16(s[2..])
  }

  /** `u16::to_be_bytes` */
  function Bytes16(n: uint16): (s: seq<uint8>)
    ensures |s| == 2
  {
    [n / 0x100, n % 0x100]
  }

  /** `u32::to_be_bytes` */
  function Bytes32(n: uint32): (s: seq<uint8>)
    ensures |s| == 4
  {
    Bytes16(n / 0x1_0000) + Bytes16(n % 0x1_0000)
  }

  /** `u32::to_le_bytes`: the big-endian bytes in reverse order. */
  function LeBytes32(n: uint32): (s: seq<uint8>)
    ensures |s| == 4
  {
    var be := Bytes32(n);
    [be[3], be[2], be[1], be[0]]
  }

  lemma U16RoundTrip(n: uint16)
    ensures U16(Bytes16(n)) == n
  {
  }

  lemma Bytes16RoundTrip(s: seq<uint8>)
    requires |s| == 2
    ensures Bytes16(U16(s)) == s
  {
  }

  lemma U32RoundTrip(n: uint32)
    ensures U32(Bytes32(n)) == n
  {
    var s := Bytes32(n);
    assert s[..2] == Bytes16(n / 0x1_0000) && s[2..] == Bytes16(n % 0x1_0000);
    U16RoundTrip(n / 0x1_0000);
    U16RoundTrip(n % 0x1_0000);
  }

  lemma Bytes32RoundTrip(s: seq<uint8>)
    requires |s| == 4
    ensures Bytes32(U32(s)) == s
  {
    var n := U32(s);
    assert n / 0x1_0000 == U16(s[..2]) && n % 0x1_0000 == U16(s[2..]);
    Bytes16RoundTrip(s[..2]);
    Bytes16RoundTrip(s[2..]);
    assert s == s[..2] + s[2..];
  }

  /** The value of four big-endian bytes, written out. */
  lemma U32Value(s: seq<uint8>)
    requires |s| == 4
    ensures U32(s) == s[0] as int * 0x100_0000 + s[1] as int * 0x1_0000 + s[2] as int * 0x100 + s[3]
  {
    assert s[..2] == [s[0], s[1]] && s[2..] == [s[2], s[3]];
  }
}
