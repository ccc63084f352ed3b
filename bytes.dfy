/** Fixed-width unsigned integers as the CtrlM library uses them on an 8-bit
    microcontroller, byte checksums, and big-endian packing of 16- and 32-bit
    values into bytes. */
module Bytes {

  /** Arduino `byte` / `uint8_t`. */
  type byte = x: int | 0 <= x < 0x100

  /** `uint16_t`. */
  type u16 = x: int | 0 <= x < 0x1_0000

  /** `uint32_t`. */
  type u32 = x: int | 0 <= x < 0x1_0000_0000

  /** `int` on the AVR target: a signed 16-bit integer. */
  type i16 = x: int | -0x8000 <= x < 0x8000

  /** Storing an `int` into a `byte` keeps its low eight bits. */
  function Truncate(x: int): (b: byte)
    ensures (x - b) % 0x100 == 0
  {
    x % 0x100
  }

  /** Storing a value of 0..65535 into a 16-bit signed `int` (two's complement). */
  function ToInt16(x: u16): (r: i16)
    ensures r == x || r == x - 0x1_0000
    ensures r < 0 <==> x >= 0x8000
  {
    if x < 0x8000 then x else x - 0x1_0000
  }

  /** Sum of the bytes, without wrap-around. */
  function Sum(s: seq<byte>): (n: nat)
    ensures n <= 0xff * |s|
  {
    if s == [] then 0 else s[0] + Sum(s[1..])
  }

  /** Additive 8-bit checksum: the byte sum wrapped modulo 256. */
  function Checksum(s: seq<byte>): (c: byte)
    ensures (Sum(s) - c) % 0x100 == 0
  {
    Sum(s) % 0x100
  }

  lemma {:induction false} SumAppend(s: seq<byte>, t: seq<byte>)
    ensures Sum(s + t) == Sum(s) + Sum(t)
  {
    if s == [] {
      assert s + t == t;
    } else {
      assert (s + t)[1..] == s[1..] + t;
      SumAppend(s[1..], t);
    }
  }

  /** The value of two bytes read most significant first. */
  function FromU16Bytes(hi: byte, lo: byte): (v: u16)
    ensures v / 0x100 == hi && v % 0x100 == lo
  {
    hi * 0x100 + lo
  }

  /** The two bytes of a 16-bit value, most significant first, as `(v >> 8)` and
      `(v & 0xff)`; reading them back gives the value. */
  function U16Bytes(v: u16): (b: seq<byte>)
    ensures |b| == 2 && FromU16Bytes(b[0], b[1]) == v
  {
    [v / 0x100, v % 0x100]
  }

  /** The value of four bytes read most significant first. */
  function FromU32Bytes(b3: byte, b2: byte, b1: byte, b0: byte): (v: u32)
  {
    b3 * 0x100_0000 + b2 * 0x1_0000 + b1 * 0x100 + b0
  }

  /** Splitting a 32-bit value into its four shifted and masked bytes and
      reassembling them gives the value back. */
  lemma U32RoundTrip(v: u32)
    ensures var b := [(v / 0x100_0000) % 0x100, (v / 0x1_0000) % 0x100, (v / 0x100) % 0x100, v % 0x100];
      FromU32Bytes(b[0], b[1], b[2], b[3]) == v
  {
    var q1, r0 := v / 0x100, v % 0x100;
    var q2, r1 := q1 / 0x100, q1 % 0x100;
    var q3, r2 := q2 / 0x100, q2 % 0x100;
    assert v == q1 * 0x100 + r0;
    assert q1 == q2 * 0x100 + r1;
    assert q2 == q3 * 0x100 + r2;
    assert v / 0x1_0000 == q2 by {
      assert v == q2 * 0x1_0000 + (r1 * 0x100 + r0);
    }
    assert v / 0x100_0000 == q3 by {
      assert v == q3 * 0x100_0000 + (r2 * 0x1_0000 + r1 * 0x100 + r0);
    }
  }

  /** The four bytes of a 32-bit value, most significant first, as
      `(v >> 24) & 0xff`, `(v >> 16) & 0xff`, `(v >> 8) & 0xff`, `v & 0xff`;
      reading them back gives the value. */
  function U32Bytes(v: u32): (b: seq<byte>)
    ensures |b| == 4 && FromU32Bytes(b[0], b[1], b[2], b[3]) == v
  {
    U32RoundTrip(v);
    [(v / 0x100_0000) % 0x100, (v / 0x1_0000) % 0x100, (v / 0x100) % 0x100, v % 0x100]
  }

  /** Division by 256 recovers the quotient and the remainder of `q * 256 + r`. */
  lemma DivMod256(q: nat, r: byte)
    ensures (q * 0x100 + r) / 0x100 == q && (q * 0x100 + r) % 0x100 == r
  {
  }

  /** The shifted-and-masked bytes of `b3 * 2^24 + b2 * 2^16 + b1 * 2^8 + b0`
      are `b3`, `b2`, `b1`, `b0`. */
  lemma U32Digits(b3: byte, b2: byte, b1: byte, b0: byte)
    ensures var v := b3 * 0x100_0000 + b2 * 0x1_0000 + b1 * 0x100 + b0;
      (v / 0x100_0000) % 0x100 == b3 && (v / 0x1_0000) % 0x100 == b2 &&
      (v / 0x100) % 0x100 == b1 && v % 0x100 == b0
  {
    var v := b3 * 0x100_0000 + b2 * 0x1_0000 + b1 * 0x100 + b0;
    var q1 := (b3 * 0x100 + b2) * 0x100 + b1;
    var q2 := b3 * 0x100 + b2;
    assert v == q1 * 0x100 + b0;
    DivMod256(q1, b0);
    DivMod256(q2, b1);
    DivMod256(b3, b2);
    assert v / 0x1_0000 == q1 / 0x100 by {
      assert v == q2 * 0x1_0000 + (b1 * 0x100 + b0);
    }
    assert v / 0x100_0000 == b3 by {
      assert v == b3 * 0x100_0000 + (b2 * 0x1_0000 + b1 * 0x100 + b0);
    }
  }

  /** Reassembling four bytes and splitting the value again gives the bytes back. */
  lemma U32Split(b3: byte, b2: byte, b1: byte, b0: byte)
    ensures U32Bytes(FromU32Bytes(b3, b2, b1, b0)) == [b3, b2, b1, b0]
  {
    U32Digits(b3, b2, b1, b0);
  }
}
