/** How the pieces of an instruction decode: prefixes, operands and immediates as the assembler lays them
    out. */
module Encoding {
  import opened Words
  import opened X64

  // ----- immediates

  /** The four bytes of an integer, truncated to 32 bits, lowest first. */
  function Bytes32(v: int): (b: seq<Byte>)
    ensures |b| == 4
  {
    [v % 0x100, (v / 0x100) % 0x100, (v / 0x1_0000) % 0x100, (v / 0x100_0000) % 0x100]
  }

  function Bytes64(v: int): (b: seq<Byte>)
    ensures |b| == 8
  {
    Bytes32(v) + Bytes32(v / 0x1_0000_0000)
  }

  /** The int32_t with the same low 32 bits. */
  function Wrap32(v: int): int {
    var u := v % 0x1_0000_0000;
    if u < 0x8000_0000 then u else u - 0x1_0000_0000
  }

  lemma UnsignedBytes32(v: int)
    ensures UnsignedOf(Bytes32(v)) == v % 0x1_0000_0000
  {
    var v1 := v / 0x100;
    var v2 := v1 / 0x100;
    var v3 := v2 / 0x100;
    var v4 := v3 / 0x100;
    assert v == v % 0x100 + 0x100 * (v1 % 0x100) + 0x1_0000 * (v2 % 0x100) + 0x100_0000 * (v3 % 0x100) +
        0x1_0000_0000 * v4;
    assert v / 0x1_0000 == v2 && v / 0x100_0000 == v3;
  }

  lemma SignedBytes32(v: int)
    ensures SignedOf(Bytes32(v)) == Wrap32(v)
    ensures Is32(v) ==> SignedOf(Bytes32(v)) == v
  {
    UnsignedBytes32(v);
  }

  lemma SignedBytes64(v: int)
    requires Is64(v)
    ensures SignedOf64(Bytes64(v)) == v
  {
    var b := Bytes64(v);
    assert b[..4] == Bytes32(v) && b[4..] == Bytes32(v / 0x1_0000_0000);
    UnsignedBytes32(v);
    SignedBytes32(v / 0x1_0000_0000);
  }

  lemma DecodesImm32(v: int, rest: seq<Byte>)
    ensures DecodeImm32(Bytes32(v) + rest) == Ok(Wrap32(v), rest)
  {
    SignedBytes32(v);
    assert (Bytes32(v) + rest)[..4] == Bytes32(v) && (Bytes32(v) + rest)[4..] == rest;
  }

  lemma Wrap32Exact(v: int)
    ensures Wrap32(v) == v <==> Is32(v)
  {
  }

  lemma Imm32Exact(v: int, rest: seq<Byte>)
    requires Is32(v)
    ensures DecodeImm32(Bytes32(v) + rest) == Ok(v, rest)
  {
    DecodesImm32(v, rest);
    SignedBytes32(v);
  }

  lemma DecodesImm64(v: int, rest: seq<Byte>)
    requires Is64(v)
    ensures DecodeImm64(Bytes64(v) + rest) == Ok(v, rest)
  {
    SignedBytes64(v);
    assert (Bytes64(v) + rest)[..8] == Bytes64(v) && (Bytes64(v) + rest)[8..] == rest;
  }

  lemma DecodesImm8(v: int, rest: seq<Byte>)
    requires Is8(v)
    ensures DecodeImm8([v % 0x100] + rest) == Ok(v, rest)
  {
  }

  /** is32 as written. The limit 1 << 31 does not fit an int32_t: the limit and its negation both come out as
      -2^31, so the test never succeeds and every immediate takes the 64-bit form. It agrees with the evident
      intent exactly on the immediates that do not fit 32 bits. */
  predicate Is32AsWritten(imm: int) {
    var limit := Wrap32(0x8000_0000);
    Wrap32(-limit) <= imm < limit
  }

  lemma Is32AsWrittenNeverHolds(imm: int)
    ensures !Is32AsWritten(imm)
    ensures Is32AsWritten(imm) == Is32(imm) <==> !Is32(imm)
  {
  }

  // ----- prefixes

  function Prefix(rex: Rex): seq<Byte> {
    if rex == REX_NONE then [] else [RexByte(rex)]
  }

  lemma SplitsRex(rex: Rex, bytes: seq<Byte>)
    requires |bytes| > 0 && !(0x40 <= bytes[0] < 0x50)
    ensures SplitRex(Prefix(rex) + bytes) == (rex, bytes)
  {
    if rex == REX_NONE {
      assert Prefix(rex) + bytes == bytes;
    } else {
      assert (Prefix(rex) + bytes)[1..] == bytes;
    }
  }

  /** A one-byte opcode behind an optional REX prefix. */
  lemma DecodesOp(rex: Rex, op: Byte, tail: seq<Byte>)
    requires op != 0x0F && op != 0xF2 && !(0x40 <= op < 0x50)
    ensures Decode(Prefix(rex) + [op] + tail) == DecodeOp(rex, op, tail)
  {
    var bytes := Prefix(rex) + [op] + tail;
    assert bytes == Prefix(rex) + ([op] + tail);
    SplitsRex(rex, [op] + tail);
    assert bytes[0] != 0xF2;
    assert ([op] + tail)[1..] == tail;
  }

  lemma DecodesPrefixed(rex: Rex, rest: seq<Byte>)
    requires |rest| > 0 && rest[0] == 0x0F
    ensures Decode([0xF2] + (Prefix(rex) + rest)) == DecodeEscape(true, rex, rest[1..])
  {
    SplitsRex(rex, rest);
    assert ([0xF2] + (Prefix(rex) + rest))[1..] == Prefix(rex) + rest;
  }

  lemma DecodesUnprefixed(rex: Rex, rest: seq<Byte>)
    requires |rest| > 0 && rest[0] == 0x0F
    ensures Decode(Prefix(rex) + rest) == DecodeEscape(false, rex, rest[1..])
  {
    SplitsRex(rex, rest);
    assert (Prefix(rex) + rest)[0] != 0xF2;
  }

  /** An opcode after the escape byte. */
  lemma DecodesEscape(f2: bool, rex: Rex, op: Byte, tail: seq<Byte>)
    ensures Decode((if f2 then [0xF2] else []) + Prefix(rex) + [0x0F] + [op] + tail) ==
            DecodeEscape(f2, rex, [op] + tail)
  {
    var rest := [0x0F] + ([op] + tail);
    assert rest[1..] == [op] + tail;
    if f2 {
      assert [0xF2] + Prefix(rex) + [0x0F] + [op] + tail == [0xF2] + (Prefix(rex) + rest);
      DecodesPrefixed(rex, rest);
    } else {
      assert [] + Prefix(rex) + [0x0F] + [op] + tail == Prefix(rex) + rest;
      DecodesUnprefixed(rex, rest);
    }
  }
}
