/** The operand and address builders of the assembler. */
module Operands {
  import opened Words
  import opened X64
  import opened Encoding

  /** Behind the operand's own prefix bits, with any reg field added in, the bytes decode to rm. */
  ghost predicate Reads(encoding: seq<Byte>, rex: Rex, field: nat, rm: Rm, rest: seq<Byte>)
    requires |encoding| > 0 && encoding[0] + 8 * field < 0x100
  {
    DecodeRm(rex, [encoding[0] + 8 * field] + encoding[1..] + rest) == Ok((field, rm), rest)
  }

  ghost predicate Describes(rex: Rex, encoding: seq<Byte>, rm: Rm) {
    && !rex.w && !rex.r
    && |encoding| > 0 && encoding[0] % 0x40 < 8
    && forall prefix: Rex, field: nat, rest: seq<Byte> {:trigger Reads(encoding, prefix, field, rm, rest)} ::
         prefix.x == rex.x && prefix.b == rex.b && field < 8 ==> Reads(encoding, prefix, field, rm, rest)
  }

  lemma ReadsTail(first: Byte, tail: seq<Byte>, rex: Rex, field: nat, rm: Rm, rest: seq<Byte>)
    requires first + 8 * field < 0x100
    requires DecodeRm(rex, [first + 8 * field] + (tail + rest)) == Ok((field, rm), rest)
    ensures Reads([first] + tail, rex, field, rm, rest)
  {
    assert [first + 8 * field] + ([first] + tail)[1..] + rest == [first + 8 * field] + (tail + rest);
  }

  function High(reg: Reg): bool {
    reg > 7
  }

  function ModRm(mod: nat, low: nat): Byte
    requires mod < 4 && low < 8
  {
    64 * mod + low
  }

  lemma SplitOctal(high: nat, low: nat)
    requires low < 8
    ensures (8 * high + low) / 8 == high && (8 * high + low) % 8 == low
  {
  }

  /** Two bits, three bits, three bits. */
  lemma SplitByte(high: nat, middle: nat, low: nat)
    requires high < 4 && middle < 8 && low < 8
    ensures var b := 64 * high + 8 * middle + low; b < 0x100 && b / 64 == high && (b / 8) % 8 == middle && b % 8 == low
  {
    SplitOctal(8 * high + middle, low);
    SplitOctal(high, middle);
    assert 8 * (8 * high + middle) + low == 64 * high + 8 * middle + low;
  }

  lemma SplitModRm(mod: nat, field: nat, low: nat)
    requires mod < 4 && field < 8 && low < 8
    ensures var b := ModRm(mod, low) + 8 * field; b < 0x100 && b / 64 == mod && (b / 8) % 8 == field && b % 8 == low
  {
    SplitByte(mod, field, low);
  }

  lemma EmptyField(mod: nat, low: nat)
    requires mod < 4 && low < 8
    ensures ModRm(mod, low) % 0x40 == low
  {
  }

  lemma ExtendLow(reg: Reg)
    ensures Extend(reg % 8, High(reg)) == reg
  {
  }

  lemma DescribesDirect(reg: Reg)
    ensures Describes(Rex(false, false, false, High(reg)), [ModRm(3, reg % 8)], Direct(reg))
  {
    var encoding := [ModRm(3, reg % 8)];
    forall prefix: Rex, field: nat, rest: seq<Byte> | prefix.b == High(reg) && field < 8
      ensures Reads(encoding, prefix, field, Direct(reg), rest)
    {
      SplitModRm(3, field, reg % 8);
      assert ([encoding[0] + 8 * field] + encoding[1..] + rest)[1..] == rest;
    }
  }

  /** The bytes of a displacement for a mod field. */
  function DispBytes(mod: nat, disp: int): seq<Byte>
    requires mod < 3
  {
    if mod == 0 then [] else if mod == 1 then [disp % 0x100] else Bytes32(disp)
  }

  /** The mod field the builder chooses. Base registers with the low bits of RBP have no form without a
      displacement. */
  function ModFor(base: Reg, disp: int): nat {
    if disp == 0 && base % 8 != RBP then 0 else if Is8(disp) then 1 else 2
  }

  ghost predicate DispReads(mod: nat, tail: seq<Byte>, disp: int) {
    forall rest: seq<Byte> {:trigger tail + rest} :: DecodeDisp(mod, tail + rest) == Ok(disp, rest)
  }

  lemma DecodesDisp(base: Reg, disp: int)
    ensures var mod := ModFor(base, disp);
            mod < 3 && !(mod == 0 && base % 8 == RBP) && DispReads(mod, DispBytes(mod, disp), Wrap32(disp))
  {
    var mod := ModFor(base, disp);
    var tail := DispBytes(mod, disp);
    forall rest: seq<Byte> {:trigger tail + rest} ensures DecodeDisp(mod, tail + rest) == Ok(Wrap32(disp), rest) {
      if mod == 0 {
        assert tail + rest == rest;
      } else if mod == 1 {
        DecodesImm8(disp, rest);
      } else {
        DecodesImm32(disp, rest);
      }
    }
  }

  /** A ModR/M byte with a base register and no SIB byte. */
  lemma DecodesBased(rex: Rex, b: Byte, mod: nat, field: nat, low: nat, disp: int, tail: seq<Byte>, rest: seq<Byte>)
    requires mod < 3 && field < 8 && low < 8 && low != RSP && !(mod == 0 && low == RBP)
    requires b / 64 == mod && (b / 8) % 8 == field && b % 8 == low
    requires DecodeDisp(mod, tail) == Ok(disp, rest)
    ensures DecodeRm(rex, [b] + tail) == Ok((field, Based(Extend(low, rex.b), disp)), rest)
  {
    assert ([b] + tail)[1..] == tail;
  }

  /** A ModR/M byte whose operand is in the SIB byte. */
  lemma DecodesWithSib(rex: Rex, b: Byte, mod: nat, field: nat, tail: seq<Byte>)
    requires mod < 3 && field < 8
    requires b / 64 == mod && (b / 8) % 8 == field && b % 8 == RSP
    ensures DecodeRm(rex, [b] + tail) ==
            match DecodeSib(rex, mod, tail) { case Fail => Fail case Ok(rm, after) => Ok((field, rm), after) }
  {
    assert ([b] + tail)[1..] == tail;
  }

  lemma ReadsBased(mod: nat, low: nat, tail: seq<Byte>, disp: int, prefix: Rex, field: nat, rest: seq<Byte>)
    requires mod < 3 && field < 8 && low < 8 && low != RSP && !(mod == 0 && low == RBP)
    requires DecodeDisp(mod, tail + rest) == Ok(disp, rest)
    ensures ModRm(mod, low) + 8 * field < 0x100
    ensures Reads([ModRm(mod, low)] + tail, prefix, field, Based(Extend(low, prefix.b), disp), rest)
  {
    SplitModRm(mod, field, low);
    DecodesBased(prefix, ModRm(mod, low) + 8 * field, mod, field, low, disp, tail + rest, rest);
    ReadsTail(ModRm(mod, low), tail, prefix, field, Based(Extend(low, prefix.b), disp), rest);
  }

  lemma DescribesBased(base: Reg, mod: nat, tail: seq<Byte>, disp: int)
    requires base % 8 != RSP && mod < 3 && !(mod == 0 && base % 8 == RBP)
    requires DispReads(mod, tail, disp)
    ensures Describes(Rex(false, false, false, High(base)), [ModRm(mod, base % 8)] + tail, Based(base, disp))
  {
    var low := base % 8;
    var encoding := [ModRm(mod, low)] + tail;
    ExtendLow(base);
    EmptyField(mod, low);
    forall prefix: Rex, field: nat, rest: seq<Byte> | prefix.b == High(base) && field < 8
      ensures Reads(encoding, prefix, field, Based(base, disp), rest)
    {
      assert DecodeDisp(mod, tail + rest) == Ok(disp, rest);
      ReadsBased(mod, low, tail, disp, prefix, field, rest);
    }
  }

  /** A SIB byte with a base and no index. */
  lemma DecodesSibBase(rex: Rex, mod: nat, disp: int, tail: seq<Byte>, rest: seq<Byte>)
    requires mod < 3 && !rex.x && DecodeDisp(mod, tail) == Ok(disp, rest)
    ensures DecodeSib(rex, mod, [8 * RSP + RSP] + tail) == Ok(Based(Extend(RSP, rex.b), disp), rest)
  {
    assert ([8 * RSP + RSP] + tail)[1..] == tail;
  }

  lemma DecodesBasedSib(rex: Rex, b: Byte, mod: nat, field: nat, disp: int, tail: seq<Byte>, bytes: seq<Byte>,
          rest: seq<Byte>)
    requires mod < 3 && field < 8 && !rex.x && DecodeDisp(mod, tail) == Ok(disp, rest)
    requires b / 64 == mod && (b / 8) % 8 == field && b % 8 == RSP
    requires bytes == [b] + ([8 * RSP + RSP] + tail)
    ensures DecodeRm(rex, bytes) == Ok((field, Based(Extend(RSP, rex.b), disp)), rest)
  {
    DecodesSibBase(rex, mod, disp, tail, rest);
    DecodesWithSib(rex, b, mod, field, [8 * RSP + RSP] + tail);
  }

  lemma ReadsBasedSib(mod: nat, tail: seq<Byte>, disp: int, prefix: Rex, field: nat, rest: seq<Byte>)
    requires mod < 3 && field < 8 && !prefix.x
    requires DecodeDisp(mod, tail + rest) == Ok(disp, rest)
    ensures ModRm(mod, RSP) + 8 * field < 0x100
    ensures Reads([ModRm(mod, RSP)] + ([8 * RSP + RSP] + tail), prefix, field, Based(Extend(RSP, prefix.b), disp), rest)
  {
    SplitModRm(mod, field, RSP);
    var sibAndTail: seq<Byte> := [8 * RSP + RSP] + tail;
    var bytes := [ModRm(mod, RSP) + 8 * field] + (sibAndTail + rest);
    assert sibAndTail + rest == [8 * RSP + RSP] + (tail + rest);
    DecodesBasedSib(prefix, ModRm(mod, RSP) + 8 * field, mod, field, disp, tail + rest, bytes, rest);
    ReadsTail(ModRm(mod, RSP), sibAndTail, prefix, field, Based(Extend(RSP, prefix.b), disp), rest);
  }

  /** RSP and R12 as bases need a SIB byte without an index. */
  lemma DescribesBasedSib(base: Reg, mod: nat, tail: seq<Byte>, disp: int)
    requires base % 8 == RSP && mod < 3
    requires DispReads(mod, tail, disp)
    ensures Describes(Rex(false, false, false, High(base)), [ModRm(mod, RSP)] + ([8 * RSP + RSP] + tail),
            Based(base, disp))
  {
    var encoding := [ModRm(mod, RSP)] + ([8 * RSP + RSP] + tail);
    ExtendLow(base);
    EmptyField(mod, RSP);
    forall prefix: Rex, field: nat, rest: seq<Byte> | !prefix.x && prefix.b == High(base) && field < 8
      ensures Reads(encoding, prefix, field, Based(base, disp), rest)
    {
      assert DecodeDisp(mod, tail + rest) == Ok(disp, rest);
      ReadsBasedSib(mod, tail, disp, prefix, field, rest);
    }
  }

  function AddressBytes(base: Reg, disp: int): seq<Byte> {
    var mod := ModFor(base, disp);
    [ModRm(mod, base % 8)] + (if base % 8 == RSP then [8 * RSP + RSP] else []) + DispBytes(mod, disp)
  }

  /** What the builder lays out for a base and a displacement. */
  lemma DescribesAddress(base: Reg, disp: int, rex: Rex, encoding: seq<Byte>)
    requires rex == Rex(false, false, false, High(base))
    requires encoding == AddressBytes(base, disp)
    ensures Describes(rex, encoding, Based(base, Wrap32(disp)))
    ensures encoding[0] / 64 != 3
  {
    var mod := ModFor(base, disp);
    var tail := DispBytes(mod, disp);
    DecodesDisp(base, disp);
    if base % 8 == RSP {
      DescribesBasedSib(base, mod, tail, Wrap32(disp));
      assert encoding == [ModRm(mod, RSP)] + ([8 * RSP + RSP] + tail);
    } else {
      DescribesBased(base, mod, tail, Wrap32(disp));
      assert encoding == [ModRm(mod, base % 8)] + tail;
    }
  }

  /** The bytes do not depend on the base register's high bit. */
  lemma SameAddressBytes(base: Reg, low: Reg, disp: int)
    requires low < 8 && low == base % 8
    ensures AddressBytes(base, disp) == AddressBytes(low, disp)
  {
    assert low % 8 == low;
  }

  lemma DescribesLowAddress(base: Reg, low: Reg, disp: int)
    requires low < 8 && low == base % 8
    ensures Describes(REX_NONE, AddressBytes(base, disp), Based(low, Wrap32(disp)))
  {
    SameAddressBytes(base, low, disp);
    DescribesAddress(low, disp, REX_NONE, AddressBytes(low, disp));
  }

  function SibByte(scale: nat, index: Reg, low: nat): Byte
    requires scale < 4 && low < 8
  {
    64 * scale + 8 * (index % 8) + low
  }

  lemma SplitSib(scale: nat, index: Reg, low: nat)
    requires scale < 4 && low < 8
    ensures var b := SibByte(scale, index, low); b / 64 == scale && (b / 8) % 8 == index % 8 && b % 8 == low
  {
    SplitByte(scale, index % 8, low);
  }

  /** The source computes the byte from a factor up to 4 and truncates it. */
  lemma SibTruncated(scale: nat, index: Reg, low: nat)
    requires scale < 5 && low < 8
    ensures (64 * scale + 8 * (index % 8) + low) % 0x100 == SibByte(scale % 4, index, low)
  {
  }

  lemma DecodesSibScaled(rex: Rex, sib: Byte, index: Reg, disp: int, tail: seq<Byte>, rest: seq<Byte>)
    requires (sib / 8) % 8 == index % 8 && sib % 8 == RBP && rex.x == High(index)
    requires DecodeImm32(tail) == Ok(disp, rest)
    ensures DecodeSib(rex, 0, [sib] + tail) ==
            Ok(if index == RSP then Absolute(disp) else Scaled(index, sib / 64, disp), rest)
  {
    assert ([sib] + tail)[1..] == tail;
    assert Extend(index % 8, rex.x) == index;
  }

  function ScaledRm(index: Reg, scale: nat, disp: int): Rm {
    if index == RSP then Absolute(Wrap32(disp)) else Scaled(index, scale, Wrap32(disp))
  }

  lemma DecodesScaled(rex: Rex, b: Byte, field: nat, sib: Byte, index: Reg, disp: int, tail: seq<Byte>,
          bytes: seq<Byte>, rest: seq<Byte>)
    requires field < 8 && b / 64 == 0 && (b / 8) % 8 == field && b % 8 == RSP
    requires (sib / 8) % 8 == index % 8 && sib % 8 == RBP && rex.x == High(index)
    requires DecodeImm32(tail) == Ok(disp, rest) && bytes == [b] + ([sib] + tail)
    ensures DecodeRm(rex, bytes) ==
            Ok((field, if index == RSP then Absolute(disp) else Scaled(index, sib / 64, disp)), rest)
  {
    DecodesSibScaled(rex, sib, index, disp, tail, rest);
    DecodesWithSib(rex, b, 0, field, [sib] + tail);
  }

  lemma ReadsScaled(index: Reg, scale: nat, disp: int, prefix: Rex, field: nat, rest: seq<Byte>, sib: Byte,
          tail: seq<Byte>)
    requires scale < 4 && field < 8 && prefix.x == High(index)
    requires sib / 64 == scale && (sib / 8) % 8 == index % 8 && sib % 8 == RBP
    requires DecodeImm32(tail + rest) == Ok(Wrap32(disp), rest)
    ensures ModRm(0, RSP) + 8 * field < 0x100
    ensures Reads([ModRm(0, RSP)] + ([sib] + tail), prefix, field, ScaledRm(index, scale, disp), rest)
  {
    SplitModRm(0, field, RSP);
    var sibAndTail := [sib] + tail;
    var bytes := [ModRm(0, RSP) + 8 * field] + (sibAndTail + rest);
    assert sibAndTail + rest == [sib] + (tail + rest);
    DecodesScaled(prefix, ModRm(0, RSP) + 8 * field, field, sib, index, Wrap32(disp), tail + rest, bytes, rest);
    ReadsTail(ModRm(0, RSP), sibAndTail, prefix, field, ScaledRm(index, scale, disp), rest);
  }

  /** An index without a base: SIB base 101 with mod 0. The index field 100 without REX.X means no index. */
  lemma DescribesScaled(index: Reg, scale: nat, disp: int)
    requires scale < 4
    ensures Describes(Rex(false, false, High(index), false), [ModRm(0, RSP)] +
            ([SibByte(scale, index, RBP)] + Bytes32(disp)),
                      ScaledRm(index, scale, disp))
  {
    var encoding := [ModRm(0, RSP)] + ([SibByte(scale, index, RBP)] + Bytes32(disp));
    EmptyField(0, RSP);
    SplitSib(scale, index, RBP);
    forall prefix: Rex, field: nat, rest: seq<Byte> | prefix.x == High(index) && !prefix.b && field < 8
      ensures Reads(encoding, prefix, field, ScaledRm(index, scale, disp), rest)
    {
      DecodesImm32(disp, rest);
      ReadsScaled(index, scale, disp, prefix, field, rest, SibByte(scale, index, RBP), Bytes32(disp));
    }
  }

  /** set_sib as written marks a high index register in REX.W: REX.X stays clear and the register eight below it
      is read, or no index at all for R12. The operand is the intended one exactly for low index registers. */
  lemma MisplacedIndexBit(index: Reg, scale: nat, disp: int, w: bool)
    requires scale < 4
    ensures var bytes := [ModRm(0, RSP)] + ([SibByte(scale, index, RBP)] + Bytes32(disp));
            DecodeRm(Rex(w, false, false, false), bytes) == Ok((0, ScaledRm(index, scale, disp)), []) <==> index < 8
  {
    var low: Reg := index % 8;
    var bytes := [ModRm(0, RSP)] + ([SibByte(scale, index, RBP)] + Bytes32(disp));
    assert low % 8 == low && (low == index <==> index < 8);
    DescribesScaled(low, scale, disp);
    assert Reads(bytes, Rex(w, false, false, false), 0, ScaledRm(low, scale, disp), []);
    assert [bytes[0] + 8 * 0] + bytes[1..] + [] == bytes;
  }

  // ----- the builders

  class Operand {
    var rex: Rex
    var encoding: seq<Byte>

    constructor ()
      ensures rex == REX_NONE && encoding == []
    {
      rex, encoding := REX_NONE, [];
    }

    /** set_mod_rm: R12 as a memory operand leaves REX.B to the SIB byte. */
    method SetModRm(mod: nat, rm: Reg)
      requires mod < 4
      modifies this
      ensures encoding == [ModRm(mod, rm % 8)]
      ensures rex == if rm > 7 && !(rm == R12 && mod != 3) then old(rex).(b := true) else old(rex)
    {
      if rm > 7 && !(rm == R12 && mod != 3) {
        rex := rex.(b := true);
      }
      encoding := [64 * mod + rm % 8];
    }

    /** set_sib. The source sets REX.W for a high index register, where REX.X is meant. The byte is truncated,
        so a scale factor of 16 reads as 1. */
    method SetSib(scale: nat, index: Reg, base: Reg)
      requires |encoding| == 1 && scale < 5
      modifies this
      ensures encoding == old(encoding) + [SibByte(scale % 4, index, base % 8)]
      ensures rex == old(rex).(b := old(rex).b || base > 7, x := old(rex).x || index > 7)
    {
      if base > 7 {
        rex := rex.(b := true);
      }
      if index > 7 {
        rex := rex.(x := true);
      }
      SibTruncated(scale, index, base % 8);
      encoding := [encoding[0], (64 * scale + 8 * (index % 8) + base % 8) % 0x100];
    }

    method SetDisp8(disp: Byte)
      modifies this
      ensures rex == old(rex) && encoding == old(encoding) + [disp]
    {
      encoding := encoding + [disp];
    }

    method SetDisp32(disp: int)
      modifies this
      ensures rex == old(rex) && encoding == old(encoding) + Bytes32(disp)
    {
      encoding := encoding + Bytes32(disp);
    }

    /** asm_oper_init_r */
    method InitRegister(reg: Reg)
      modifies this
      ensures Describes(rex, encoding, Direct(reg))
      ensures encoding == [ModRm(3, reg % 8)] && rex == Rex(false, false, false, High(reg))
    {
      rex := REX_NONE;
      SetModRm(3, reg);
      DescribesDirect(reg);
    }

    /** The ModR/M byte of a base register, and the SIB byte that RSP and R12 need. */
    method SetBase(mod: nat, base: Reg)
      requires mod < 3 && rex == REX_NONE
      modifies this
      ensures rex == Rex(false, false, false, High(base))
      ensures encoding == [ModRm(mod, base % 8)] + (if base % 8 == RSP then [8 * RSP + RSP] else [])
    {
      SetModRm(mod, base);
      if base % 8 == RSP { SetSib(0, RSP, base); }
    }

    /** asm_addr_init_r. The displacement is cut down to 32 bits. */
    method InitAddress(base: Reg, disp: int)
      requires Is64(disp)
      modifies this
      ensures Describes(rex, encoding, Based(base, Wrap32(disp)))
      ensures Is32(disp) ==> Describes(rex, encoding, Based(base, disp))
      ensures encoding == AddressBytes(base, disp) && encoding[0] / 64 != 3
      ensures |encoding| == (if base % 8 == 4 then 2 else 1) +
                            (if disp == 0 && base % 8 != 5 then 0 else if -0x80 <= disp < 0x80 then 1 else 4)
    {
      rex := REX_NONE;
      if disp == 0 && base % 8 != RBP {
        SetBase(0, base);
      } else if Is8(disp) {
        SetBase(1, base);
        SetDisp8(disp % 0x100);
      } else {
        SetBase(2, base);
        SetDisp32(disp);
      }
      DescribesAddress(base, disp, rex, encoding);
      Wrap32Exact(disp);
    }

    /** asm_addr_init_s: index * scale + disp32. The source leaves the prefix bits unset. */
    method InitScaled(index: Reg, scale: nat, disp: int)
      requires scale < 5 && Is64(disp)
      modifies this
      ensures Describes(rex, encoding, ScaledRm(index, scale % 4, disp))
      ensures encoding[0] / 64 != 3
    {
      rex := REX_NONE;
      SetModRm(0, RSP);
      SetSib(scale, index, RBP);
      SetDisp32(disp);
      DescribesScaled(index, scale % 4, disp);
      assert encoding == [ModRm(0, RSP)] + ([SibByte(scale % 4, index, RBP)] + Bytes32(disp));
    }
  }
}
