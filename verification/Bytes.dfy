/** Bytes and the integers they spell. */
module Bytes {

  type byte = b: int | 0 <= b < 256

  /** Big-endian words, as htons and htonl put them on the wire. */
  function Word16(v: nat): (w: seq<byte>)
    requires v < 0x10000
    ensures |w| == 2
  {
    [v / 256, v % 256]
  }

  function Word32(v: nat): (w: seq<byte>)
    requires v < 0x1_0000_0000
    ensures |w| == 4
  {
    Word16(v / 0x10000) + Word16(v % 0x10000)
  }

  function From16(w: seq<byte>): (v: nat)
    requires |w| == 2
    ensures v < 0x10000
  {
    var high: int, low: int := w[0], w[1];
    256 * high + low
  }

  function From32(w: seq<byte>): (v: nat)
    requires |w| == 4
    ensures v < 0x1_0000_0000
  {
    0x10000 * From16(w[..2]) + From16(w[2..])
  }

  /** Words and the numbers they spell determine each other. */
  lemma Word32Back(v: nat)
    requires v < 0x1_0000_0000
    ensures From32(Word32(v)) == v
  {
    var high, low := v / 0x10000, v % 0x10000;
    assert Word32(v)[..2] == Word16(high) && Word32(v)[2..] == Word16(low);
  }

  lemma From32Back(w: seq<byte>)
    requires |w| == 4
    ensures Word32(From32(w)) == w
  {
    var high, low := From16(w[..2]), From16(w[2..]);
    assert From32(w) / 0x10000 == high && From32(w) % 0x10000 == low;
    From16Back(w[..2]);
    From16Back(w[2..]);
  }

  lemma From16Back(w: seq<byte>)
    requires |w| == 2
    ensures Word16(From16(w)) == w
  {
  }

  /** The high byte is the first, both ways. */
  lemma Word16Bytes(v: nat)
    requires v < 0x10000
    ensures Word16(v) == [v / 256, v % 256]
  {
  }

  lemma Word32Bytes(v: nat)
    requires v < 0x1_0000_0000
    ensures Word32(v) == [v / 0x100_0000, v / 0x1_0000 % 256, v / 256 % 256, v % 256]
  {
    var high, low := v / 0x1_0000, v % 0x1_0000;
    var a, b, c, d := high / 256, high % 256, low / 256, low % 256;
    assert Word32(v) == [a, b, c, d] && v == 0x1_0000 * high + low && high == 256 * a + b && low == 256 * c + d;
    assert v / 0x1_0000 % 256 == b;
    hide *;
    Spelled(v, a, b, c, d);
  }

  /** The bytes of the number they spell. */
  lemma Spelled(v: nat, a: byte, b: byte, c: byte, d: byte)
    requires v == 0x100_0000 * (a as int) + 0x1_0000 * (b as int) + 256 * (c as int) + d as int
    ensures v / 0x100_0000 == a && v / 0x1_0000 % 256 == b && v / 256 % 256 == c && v % 256 == d
  {
    Over24(a, 0x1_0000 * (b as int) + 256 * (c as int) + d as int);
    Over16(256 * (a as int) + b as int, 256 * (c as int) + d as int);
    Over8(0x1_0000 * (a as int) + 256 * (b as int) + c as int, d);
    Over8(a, b);
    Over8(256 * (a as int) + b as int, c);
  }

  lemma Over8(q: int, r: int)
    requires 0 <= r < 256
    ensures (256 * q + r) / 256 == q && (256 * q + r) % 256 == r
  {
  }

  lemma Over16(q: int, r: int)
    requires 0 <= r < 0x1_0000
    ensures (0x1_0000 * q + r) / 0x1_0000 == q && (0x1_0000 * q + r) % 0x1_0000 == r
  {
  }

  lemma Over24(q: int, r: int)
    requires 0 <= r < 0x100_0000
    ensures (0x100_0000 * q + r) / 0x100_0000 == q
  {
  }

  lemma From16Bytes(w: seq<byte>)
    requires |w| == 2
    ensures From16(w) == 256 * (w[0] as int) + w[1] as int
  {
  }

  lemma From32Bytes(w: seq<byte>)
    requires |w| == 4
    ensures From32(w) == 0x100_0000 * (w[0] as int) + 0x1_0000 * (w[1] as int) + 256 * (w[2] as int) + w[3] as int
  {
    From16Bytes(w[..2]);
    From16Bytes(w[2..]);
  }

  /** A value cut to n bits and read as a signed number: the C conversion to char, int or long long. */
  function Signed8(v: int): int {
    var u := v % 256;
    if u >= 128 then u - 256 else u
  }

  function Signed32(v: int): int {
    var u := v % 0x1_0000_0000;
    if u >= 0x8000_0000 then u - 0x1_0000_0000 else u
  }

  function Signed64(v: int): int {
    var u := v % 0x1_0000_0000_0000_0000;
    if u >= 0x8000_0000_0000_0000 then u - 0x1_0000_0000_0000_0000 else u
  }
}
