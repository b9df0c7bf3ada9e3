/** Little-endian byte packing shared by the binary records, and Java's
    32-bit signed integer. */
module Bytes {

  newtype byte = x: int | 0 <= x < 0x100

  /** Java's `int`. */
  newtype int32 = x: int | -0x8000_0000 <= x < 0x8000_0000

  /** Two bytes, low byte first, holding the low 16 bits of v. */
  function PutShort(v: int): (r: seq<byte>)
    ensures |r| == 2
  {
    var u := v % 0x1_0000;
    [(u % 0x100) as byte, (u / 0x100) as byte]
  }

  /** The unsigned 16-bit value of two little-endian bytes. */
  function GetUShort(b: seq<byte>): (r: int)
    requires |b| == 2
    ensures 0 <= r < 0x1_0000
  {
    b[0] as int + 0x100 * b[1] as int
  }

  lemma ShortRoundTrip(v: int)
    ensures GetUShort(PutShort(v)) == v % 0x1_0000
  {
    var u := v % 0x1_0000;
    assert u == (u / 0x100) * 0x100 + u % 0x100;
  }

  /** Four bytes, low byte first, holding the two's-complement bits of v. */
  function PutInteger(v: int): (r: seq<byte>)
    ensures |r| == 4
  {
    var u := v % 0x1_0000_0000;
    PutShort(u % 0x1_0000) + PutShort(u / 0x1_0000)
  }

  /** The unsigned 32-bit value of four little-endian bytes. */
  function GetUInteger(b: seq<byte>): (r: int)
    requires |b| == 4
    ensures 0 <= r < 0x1_0000_0000
  {
    GetUShort(b[..2]) + 0x1_0000 * GetUShort(b[2..])
  }

  /** Java's `getInteger`: the four bytes read as a signed 32-bit value. */
  function GetInteger(b: seq<byte>): (r: int32)
    requires |b| == 4
  {
    var u := GetUInteger(b);
    (if u < 0x8000_0000 then u else u - 0x1_0000_0000) as int32
  }

  lemma UIntegerRoundTrip(v: int)
    ensures GetUInteger(PutInteger(v)) == v % 0x1_0000_0000
  {
    var u := v % 0x1_0000_0000;
    var b := PutInteger(v);
    assert b[..2] == PutShort(u % 0x1_0000);
    assert b[2..] == PutShort(u / 0x1_0000);
    ShortRoundTrip(u % 0x1_0000);
    ShortRoundTrip(u / 0x1_0000);
    assert u == (u / 0x1_0000) * 0x1_0000 + u % 0x1_0000;
  }

  /** Writing a Java int and reading it back gives the same int. */
  lemma IntegerRoundTrip(v: int32)
    ensures GetInteger(PutInteger(v as int)) == v
  {
    UIntegerRoundTrip(v as int);
  }
}
