/** Bytes and the two byte orders. */
module Bytes {
  import opened Machine

  type Byte = x: int | 0 <= x < 256

  /** `htons` and `ntohs`: exchanges the two bytes. */
  function Swap16(w: nat): (r: nat)
    requires w < 0x1_0000
    ensures r < 0x1_0000
  {
    w % 256 * 256 + w / 256
  }

  lemma Swap16Involution(w: nat)
    requires w < 0x1_0000
    ensures Swap16(w) < 0x1_0000 && Swap16(Swap16(w)) == w
  {
  }

  /** Byte `i` of a little-endian machine word in memory. */
  function B0(w: nat): Byte { w % 256 }
  function B1(w: nat): Byte { w / 0x100 % 256 }
  function B2(w: nat): Byte { w / 0x1_0000 % 256 }
  function B3(w: nat): Byte { w / 0x100_0000 % 256 }

  /** Machine loads, little-endian. */
  function Load16(b: seq<Byte>, i: nat): (w: nat)
    requires i + 2 <= |b|
    ensures w < 0x1_0000
  {
    b[i] + 0x100 * (b[i + 1] as int)
  }

  function Load32(b: seq<Byte>, i: nat): (w: nat)
    requires i + 4 <= |b|
    ensures w < U32
  {
    b[i] + 0x100 * (b[i + 1] as int) + 0x1_0000 * (b[i + 2] as int) + 0x100_0000 * (b[i + 3] as int)
  }

  /** `htonl` and `ntohl`: reverses the four bytes. */
  function Swap32(w: nat): (r: nat)
    requires w < U32
    ensures r < U32
  {
    0x100_0000 * (B0(w) as int) + 0x1_0000 * (B1(w) as int) + 0x100 * (B2(w) as int) + B3(w)
  }

  lemma Bytes32(w: nat)
    requires w < U32
    ensures w == B0(w) + 0x100 * (B1(w) as int) + 0x1_0000 * (B2(w) as int) + 0x100_0000 * (B3(w) as int)
  {
    Quotients(w);
    var q1, q2, q3 := w / 0x100, w / 0x1_0000, w / 0x100_0000;
    assert w == 0x100 * q1 + B0(w) && q1 == 0x100 * q2 + B1(w) && q2 == 0x100 * q3 + B2(w) && q3 == B3(w);
    hide B0, B1, B2, B3;
  }

  lemma Quotients(w: nat)
    requires w < U32
    ensures w / 0x100 / 0x100 == w / 0x1_0000 && w / 0x1_0000 / 0x100 == w / 0x100_0000 < 256
  {
  }

  lemma FourBytes(b0: Byte, b1: Byte, b2: Byte, b3: Byte)
    ensures var w: nat := b0 + 0x100 * (b1 as int) + 0x1_0000 * (b2 as int) + 0x100_0000 * (b3 as int);
            w < U32 && B0(w) == b0 && B1(w) == b1 && B2(w) == b2 && B3(w) == b3
  {
    var w: nat := b0 + 0x100 * (b1 as int) + 0x1_0000 * (b2 as int) + 0x100_0000 * (b3 as int);
    assert w / 0x100 == b1 + 0x100 * (b2 as int) + 0x1_0000 * (b3 as int);
    assert w / 0x1_0000 == b2 + 0x100 * (b3 as int);
    assert w / 0x100_0000 == b3;
  }

  lemma Swap32Involution(w: nat)
    requires w < U32
    ensures Swap32(Swap32(w)) == w
  {
    FourBytes(B3(w), B2(w), B1(w), B0(w));
    Bytes32(w);
    hide B0, B1, B2, B3;
  }
}
