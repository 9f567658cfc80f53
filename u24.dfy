/** The three-byte `u24` that holds an object's declared data length. */
module U24 {
  import opened Base
  import BigEndian

  /** `u24([u8; 3])`: three bytes kept in the order they were given. */
  datatype U24 = U24(b0: uint8, b1: uint8, b2: uint8)

  /** `From<[u8; 3]>`: wraps the bytes unchanged. */
  function From(value: seq<uint8>): (x: U24)
    requires |value| == 3
    ensures [x.b0, x.b1, x.b2] == value
  {
    U24(value[0], value[1], value[2])
  }

  /** `to_u32`: reads the bytes big-endian behind a zero top byte. */
  function ToU32(x: U24): (n: uint32)
    ensures n < 0x100_0000
    ensures n == x.b0 as int * 0x1_0000 + x.b1 as int * 0x100 + x.b2
  {
    BigEndian.U32Value([0, x.b0, x.b1, x.b2]);
    BigEndian.U32([0, x.b0, x.b1, x.b2])
  }

  /** `from_u32`: keeps the three LOW-order little-endian bytes, so the
      least significant byte ends up first. The debug assertion that the
      fourth little-endian byte is zero is the precondition. */
  function FromU32(n: uint32): (x: U24)
    requires n < 0x100_0000
    ensures x.b0 == n % 0x100 && x.b1 == (n / 0x100) % 0x100 && x.b2 == n / 0x1_0000
  {
    var le := BigEndian.LeBytes32(n);
    U24(le[0], le[1], le[2])
  }

  /** `to_u32` of wrapped bytes is their big-endian value. */
  lemma ToU32OfFrom(value: seq<uint8>)
    requires |value| == 3
    ensures ToU32(From(value)) == value[0] as int * 0x1_0000 + value[1] as int * 0x100 + value[2]
    ensures ToU32(From(value)) < 0x100_0000
  {
  }

  /** `to_u32(from_u32(n))` is `n` with its low and high bytes exchanged. */
  lemma FromU32SwapsOuterBytes(n: uint32)
    requires n < 0x100_0000
    ensures ToU32(FromU32(n)) == (n % 0x100) * 0x1_0000 + ((n / 0x100) % 0x100) * 0x100 + n / 0x1_0000
  {
  }

  /** So `from_u32` followed by `to_u32` gives `n` back exactly when its outer bytes agree. */
  lemma FromU32RoundTripIff(n: uint32)
    requires n < 0x100_0000
    ensures ToU32(FromU32(n)) == n <==> n % 0x100 == n / 0x1_0000
  {
    var lo, mid, hi := n % 0x100, (n / 0x100) % 0x100, n / 0x1_0000;
    assert n == hi * 0x1_0000 + mid * 0x100 + lo;
    FromU32SwapsOuterBytes(n);
  }

  /** A concrete input: 1 comes back as 65536. */
  lemma FromU32NotInverse()
    ensures ToU32(FromU32(1)) == 0x1_0000
  {
    FromU32SwapsOuterBytes(1);
  }

  /** The conversion `from_u32` evidently means: the big-endian bytes under the zero top byte. */
  function FromU32Be(n: uint32): (x: U24)
    requires n < 0x100_0000
    ensures ToU32(x) == n
  {
    var be := BigEndian.Bytes32(n);
    BigEndian.U32RoundTrip(n);
    BigEndian.U32Value(be);
    U24(be[1], be[2], be[3])
  }

  /** The corrected conversion is a two-sided inverse of `to_u32`. */
  lemma FromU32BeRoundTrip(x: U24)
    ensures FromU32Be(ToU32(x)) == x
  {
    var n := ToU32(x);
    var be := BigEndian.Bytes32(n);
    var bytes := [0, x.b0, x.b1, x.b2];
    BigEndian.U32Value(bytes);
    BigEndian.Bytes32RoundTrip(bytes);
  }
}
