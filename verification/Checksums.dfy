/**
 The two checksums of a PNG file. The running forms of the writer, two table
 lookups per byte and a modulo per byte, agree with the definitions in the
 standards.
 */
module Checksums {
  import opened Arithmetic
  import opened Bytes

  // ----- CRC-32, section 3.4 of RFC 2083 -----

  // One bit of the division by the CRC polynomial, low bit first.
  function Bit(c: bv32): bv32 {
    if c & 1 == 1 then (c >> 1) ^ 0xedb88320 else c >> 1
  }

  function Nibble(c: bv32): bv32 {
    Bit(Bit(Bit(Bit(c))))
  }

  // The standard's update for one byte: eight bits.
  function CrcByte(c: bv32, u: byte): bv32 {
    Nibble(Nibble(c ^ (u as bv32)))
  }

  function Crc(c: bv32, data: seq<byte>): bv32
    decreases |data|
  {
    if data == [] then c else Crc(CrcByte(c, data[0]), data[1..])
  }

  // The writer's table: what four bits leave behind.
  function Table(i: bv32): bv32 {
    if i == 0 then 0 else if i == 1 then 0x1db71064 else if i == 2 then 0x3b6e20c8 else if i == 3 then 0x26d930ac
    else if i == 4 then 0x76dc4190 else if i == 5 then 0x6b6b51f4 else if i == 6 then 0x4db26158
    else if i == 7 then 0x5005713c else if i == 8 then 0xedb88320 else if i == 9 then 0xf00f9344
    else if i == 10 then 0xd6d6a3e8 else if i == 11 then 0xcb61b38c else if i == 12 then 0x9b64c2b0
    else if i == 13 then 0x86d3d2d4 else if i == 14 then 0xa00ae278 else 0xbdbdf21c
  }

  // The writer's step: one lookup for four bits.
  function TableStep(c: bv32): bv32 {
    (c >> 4) ^ Table(c & 15)
  }

  // The writer's update for one byte.
  function TableCrc(c: bv32, u: byte): bv32 {
    TableStep(TableStep(c ^ (u as bv32)))
  }

  // The low four bits decide what four steps of the division add; a quarter
  // of the table at a time.
  lemma LowBits0(c: bv32)
    requires c & 12 == 0
    ensures Nibble(c) == (c >> 4) ^ Table(c & 15)
  {
    assert c & 15 == 0 || c & 15 == 1 || c & 15 == 2 || c & 15 == 3;
  }

  lemma LowBits4(c: bv32)
    requires c & 12 == 4
    ensures Nibble(c) == (c >> 4) ^ Table(c & 15)
  {
    assert c & 15 == 4 || c & 15 == 5 || c & 15 == 6 || c & 15 == 7;
  }

  lemma LowBits8(c: bv32)
    requires c & 12 == 8
    ensures Nibble(c) == (c >> 4) ^ Table(c & 15)
  {
    assert c & 15 == 8 || c & 15 == 9 || c & 15 == 10 || c & 15 == 11;
  }

  lemma LowBits12(c: bv32)
    requires c & 12 == 12
    ensures Nibble(c) == (c >> 4) ^ Table(c & 15)
  {
    assert c & 15 == 12 || c & 15 == 13 || c & 15 == 14 || c & 15 == 15;
  }

  lemma NibbleTable(c: bv32)
    ensures TableStep(c) == Nibble(c)
  {
    hide Nibble;
    hide Table;
    assert c & 12 == 0 || c & 12 == 4 || c & 12 == 8 || c & 12 == 12;
    if c & 12 == 0 {
      LowBits0(c);
    } else if c & 12 == 4 {
      LowBits4(c);
    } else if c & 12 == 8 {
      LowBits8(c);
    } else {
      LowBits12(c);
    }
  }

  lemma TableByte(c: bv32, u: byte)
    ensures TableCrc(c, u) == CrcByte(c, u)
  {
    hide TableStep;
    hide Nibble;
    var x := c ^ (u as bv32);
    NibbleTable(x);
    NibbleTable(TableStep(x));
  }

  lemma {:induction false} CrcAppend(c: bv32, a: seq<byte>, b: seq<byte>)
    ensures Crc(c, a + b) == Crc(Crc(c, a), b)
    decreases |a|
  {
    hide CrcByte;
    if a == [] {
      assert a + b == b;
    } else {
      assert (a + b)[1..] == a[1..] + b;
      CrcAppend(CrcByte(c, a[0]), a[1..], b);
    }
  }

  // ----- Adler-32, section 8.2 of RFC 1950 -----

  const BASE := 65521

  function Sum(data: seq<byte>): nat {
    if data == [] then 0 else Sum(data[..|data| - 1]) + data[|data| - 1]
  }

  // s1 is one more than the sum of all bytes; s2 is the sum of all values that
  // s1 takes, one for each byte.
  function S1(data: seq<byte>): nat {
    1 + Sum(data)
  }

  function S2(data: seq<byte>): nat {
    if data == [] then 0 else S2(data[..|data| - 1]) + S1(data)
  }

  function Adler(data: seq<byte>): (r: nat)
    ensures r < 0x1_0000_0000
  {
    S2(data) % 65521 * 0x10000 + S1(data) % 65521
  }

  // Reducing at every byte, as the writer does, gives the same remainders.
  lemma AdlerStep(data: seq<byte>, u: byte)
    ensures S1(data + [u]) % BASE == (S1(data) % BASE + u) % BASE
    ensures S2(data + [u]) % BASE == (S2(data) % BASE + S1(data + [u]) % BASE) % BASE
  {
    assert (data + [u])[..|data|] == data;
    var s1 := S1(data + [u]);
    ModAdd(S1(data), u, BASE);
    ModAdd(S2(data), s1 % BASE, BASE);
    ModAdd(s1, S2(data), BASE);
  }
}
