/** The instruction emitters of the assembler, each proved against the decoder: whatever follows the emitted
    bytes, they decode to the intended instructions and to nothing more. */
module Assembling {
  import opened Words
  import opened X64
  import opened Encoding
  import opened Operands

  // ----- what a run of bytes says

  ghost predicate Encodes(bytes: seq<Byte>, insn: Insn) {
    forall rest: seq<Byte> {:trigger bytes + rest} :: Decode(bytes + rest) == Ok(insn, rest)
  }

  /** Whatever follows, the bytes decode to these instructions. */
  ghost predicate Reading(decode: seq<Byte> -> Decoded<Insn>, bytes: seq<Byte>, insns: seq<Insn>) {
    forall rest: seq<Byte> {:trigger bytes + rest} :: DecodeMany(decode, bytes + rest, |insns|) == Ok(insns, rest)
  }

  ghost predicate Says(bytes: seq<Byte>, insns: seq<Insn>) {
    Reading(Decode, bytes, insns)
  }

  /** The code grew by the given instructions. */
  ghost predicate Appends(before: seq<Byte>, after: seq<Byte>, insns: seq<Insn>) {
    before <= after && Says(after[|before|..], insns)
  }

  lemma ReadingOne(decode: seq<Byte> -> Decoded<Insn>, bytes: seq<Byte>, insn: Insn)
    requires forall rest: seq<Byte> {:trigger bytes + rest} :: decode(bytes + rest) == Ok(insn, rest)
    ensures Reading(decode, bytes, [insn])
  {
    forall rest: seq<Byte> {:trigger bytes + rest}
      ensures DecodeMany(decode, bytes + rest, |[insn]|) == Ok([insn], rest)
    {
      assert decode(bytes + rest) == Ok(insn, rest);
      assert DecodeMany(decode, rest, 0) == Ok([], rest);
      assert [insn] + [] == [insn];
    }
  }

  /** Decoding m instructions and then n more is decoding m + n. */
  lemma {:induction false} DecodeManySplits(decode: seq<Byte> -> Decoded<Insn>, bytes: seq<Byte>, m: nat, n: nat)
    ensures DecodeMany(decode, bytes, m + n) ==
            match DecodeMany(decode, bytes, m) {
              case Fail => Fail
              case Ok(first, rest) =>
                match DecodeMany(decode, rest, n) {
                  case Fail => Fail
                  case Ok(second, after) => Ok(first + second, after)
                }
            }
    decreases m
  {
    if m == 0 {
      match DecodeMany(decode, bytes, n) {
        case Fail =>
        case Ok(second, _) => assert [] + second == second;
      }
    } else {
      match decode(bytes) {
        case Fail =>
        case Ok(insn, rest) =>
          DecodeManySplits(decode, rest, m - 1, n);
          match DecodeMany(decode, rest, m - 1) {
            case Fail =>
            case Ok(first, after) =>
              match DecodeMany(decode, after, n) {
                case Fail =>
                case Ok(second, _) => assert [insn] + (first + second) == [insn] + first + second;
              }
          }
      }
    }
  }

  lemma ReadingBoth(decode: seq<Byte> -> Decoded<Insn>, a: seq<Byte>, b: seq<Byte>, first: seq<Insn>, second: seq<Insn>)
    requires Reading(decode, a, first) && Reading(decode, b, second)
    ensures Reading(decode, a + b, first + second)
  {
    forall rest: seq<Byte> {:trigger a + b + rest}
      ensures DecodeMany(decode, a + b + rest, |first + second|) == Ok(first + second, rest)
    {
      assert a + b + rest == a + (b + rest);
      assert DecodeMany(decode, a + (b + rest), |first|) == Ok(first, b + rest);
      assert DecodeMany(decode, b + rest, |second|) == Ok(second, rest);
      DecodeManySplits(decode, a + (b + rest), |first|, |second|);
    }
  }

  lemma AppendsBoth(a: seq<Byte>, b: seq<Byte>, c: seq<Byte>, first: seq<Insn>, second: seq<Insn>)
    requires Appends(a, b, first) && Appends(b, c, second)
    ensures Appends(a, c, first + second)
  {
    ReadingBoth(Decode, b[|a|..], c[|b|..], first, second);
    assert c[|a|..] == b[|a|..] + c[|b|..];
  }

  lemma AppendsTwo(a: seq<Byte>, b: seq<Byte>, c: seq<Byte>, first: Insn, second: Insn)
    requires Appends(a, b, [first]) && Appends(b, c, [second])
    ensures Appends(a, c, [first, second])
  {
    AppendsBoth(a, b, c, [first], [second]);
    assert [first] + [second] == [first, second];
  }

  lemma AppendsOne(before: seq<Byte>, after: seq<Byte>, bytes: seq<Byte>, insn: Insn)
    requires Encodes(bytes, insn) && after == before + bytes
    ensures Appends(before, after, [insn])
  {
    ReadingOne(Decode, bytes, insn);
    assert after[|before|..] == bytes;
  }

  function Flatten(steps: seq<seq<Insn>>): seq<Insn> {
    if steps == [] then [] else Flatten(steps[..|steps| - 1]) + steps[|steps| - 1]
  }

  /** Any run of emitter calls into an empty buffer: decoding the whole buffer gives the instructions of the
      calls in order and leaves no byte over. */
  lemma {:induction false} RunDecodes(codes: seq<seq<Byte>>, steps: seq<seq<Insn>>)
    requires |codes| == |steps| + 1 && codes[0] == []
    requires forall k :: 0 <= k < |steps| ==> Appends(codes[k], codes[k + 1], steps[k])
    ensures Says(codes[|steps|], Flatten(steps))
    ensures DecodeMany(Decode, codes[|steps|], |Flatten(steps)|) == Ok(Flatten(steps), [])
  {
    var n := |steps|;
    if n == 0 {
      assert Says(codes[0], []);
    } else {
      RunDecodes(codes[..n], steps[..n - 1]);
      assert codes[n - 1][0..] == codes[n - 1] && codes[n][0..] == codes[n];
      AppendsBoth(codes[0], codes[n - 1], codes[n], Flatten(steps[..n - 1]), steps[n - 1]);
    }
    assert codes[n] + [] == codes[n];
  }

  // ----- the layouts of an instruction

  /** The prefix bits of a full-size instruction: the reg field's extension and the operand's own bits. */
  function OperRex(w: bool, reg: Reg, oper: Rex): Rex {
    Rex(w, High(reg), oper.x, oper.b)
  }

  function OperBytes(field: nat, encoding: seq<Byte>): seq<Byte>
    requires field < 8 && |encoding| > 0 && encoding[0] % 0x40 < 8
  {
    [encoding[0] + 8 * field] + encoding[1..]
  }

  lemma FieldFits(first: Byte, field: nat)
    requires field < 8 && first % 0x40 < 8
    ensures first + 8 * field < 0x100
  {
  }

  /** Opcodes followed by just an operand. */
  predicate PlainOpcode(op: Byte) {
    (op < 0x40 && (op % 8 == 3 || op % 8 == 1)) || op == 0x85 || op == 0x89 || op == 0x8B || op == 0x8D ||
        op == 0x8F || op == 0xFF
  }

  lemma OperandReads(rex: Rex, field: nat, encoding: seq<Byte>, oper: Rex, rm: Rm, rest: seq<Byte>)
    requires Describes(oper, encoding, rm) && rex.x == oper.x && rex.b == oper.b && field < 8
    ensures DecodeRm(rex, OperBytes(field, encoding) + rest) == Ok((field, rm), rest)
  {
    assert Reads(encoding, rex, field, rm, rest);
  }

  lemma OpRm(rex: Rex, op: Byte, tail: seq<Byte>, field: nat, rm: Rm, rest: seq<Byte>, insn: Insn)
    requires PlainOpcode(op) && field < 8
    requires DecodeRm(rex, tail) == Ok((field, rm), rest) && WithRm(op, rex, field, rm) == Ok(insn, [])
    ensures DecodeOp(rex, op, tail) == Ok(insn, rest)
  {
  }

  lemma OpRmImm32(rex: Rex, op: Byte, tail: seq<Byte>, field: nat, rm: Rm, imm: int, after: seq<Byte>,
          rest: seq<Byte>, insn: Insn)
    requires op in {0x69, 0x81, 0xC7} && field < 8
    requires DecodeRm(rex, tail) == Ok((field, rm), after) && DecodeImm32(after) == Ok(imm, rest)
    requires WithRmImm(op, rex, field, rm, imm) == Ok(insn, [])
    ensures DecodeOp(rex, op, tail) == Ok(insn, rest)
  {
  }

  lemma OpRmImm8(rex: Rex, tail: seq<Byte>, field: nat, rm: Rm, imm: int, after: seq<Byte>, rest: seq<Byte>, insn: Insn)
    requires field < 8
    requires DecodeRm(rex, tail) == Ok((field, rm), after) && DecodeImm8(after) == Ok(imm, rest)
    requires WithRmImm(0x83, rex, field, rm, imm) == Ok(insn, [])
    ensures DecodeOp(rex, 0x83, tail) == Ok(insn, rest)
  {
  }

  lemma AluWithReg(op: AluOp, reg: Reg, oper: Rex, rm: Rm)
    ensures WithRm(8 * Digit(op) + 3, OperRex(true, reg, oper), reg % 8, rm) == Ok(AluRegRm(op, reg, rm), [])
    ensures WithRm(8 * Digit(op) + 1, OperRex(true, reg, oper), reg % 8, rm) == Ok(AluRmReg(op, rm, reg), [])
  {
    ExtendLow(reg);
  }

  /** Whatever follows, the bytes behind the opcode complete the instruction. */
  ghost predicate Completes(rex: Rex, op: Byte, tail: seq<Byte>, insn: Insn) {
    forall rest: seq<Byte> {:trigger tail + rest} :: DecodeOp(rex, op, tail + rest) == Ok(insn, rest)
  }

  lemma LayoutOp(rex: Rex, op: Byte, tail: seq<Byte>, insn: Insn)
    requires op != 0x0F && op != 0xF2 && !(0x40 <= op < 0x50)
    requires Completes(rex, op, tail, insn)
    ensures Encodes(Prefix(rex) + [op] + tail, insn)
  {
    forall rest: seq<Byte> {:trigger Prefix(rex) + [op] + tail + rest}
      ensures Decode(Prefix(rex) + [op] + tail + rest) == Ok(insn, rest)
    {
      DecodesOp(rex, op, tail + rest);
      assert Prefix(rex) + [op] + tail + rest == Prefix(rex) + [op] + (tail + rest);
    }
  }

  lemma LayoutRm(rex: Rex, op: Byte, field: nat, encoding: seq<Byte>, oper: Rex, rm: Rm, insn: Insn)
    requires Describes(oper, encoding, rm) && rex.x == oper.x && rex.b == oper.b
    requires PlainOpcode(op) && field < 8 && WithRm(op, rex, field, rm) == Ok(insn, [])
    ensures Encodes(Prefix(rex) + [op] + OperBytes(field, encoding), insn)
  {
    var tail := OperBytes(field, encoding);
    forall rest: seq<Byte> {:trigger tail + rest} ensures DecodeOp(rex, op, tail + rest) == Ok(insn, rest) {
      OperandReads(rex, field, encoding, oper, rm, rest);
      OpRm(rex, op, tail + rest, field, rm, rest, insn);
    }
    LayoutOp(rex, op, tail, insn);
  }

  lemma AppendsRm(before: seq<Byte>, after: seq<Byte>, rex: Rex, op: Byte, field: nat, encoding: seq<Byte>, oper: Rex,
          rm: Rm, insn: Insn)
    requires Describes(oper, encoding, rm) && rex.x == oper.x && rex.b == oper.b
    requires PlainOpcode(op) && field < 8 && WithRm(op, rex, field, rm) == Ok(insn, [])
    requires after == before + (Prefix(rex) + [op] + OperBytes(field, encoding))
    ensures Appends(before, after, [insn])
  {
    LayoutRm(rex, op, field, encoding, oper, rm, insn);
    AppendsOne(before, after, Prefix(rex) + [op] + OperBytes(field, encoding), insn);
  }

  lemma LayoutRmImm32(rex: Rex, op: Byte, field: nat, encoding: seq<Byte>, oper: Rex, rm: Rm, imm: int, insn: Insn)
    requires Describes(oper, encoding, rm) && rex.x == oper.x && rex.b == oper.b && Is32(imm)
    requires op in {0x69, 0x81, 0xC7} && field < 8 && WithRmImm(op, rex, field, rm, imm) == Ok(insn, [])
    ensures Encodes(Prefix(rex) + [op] + (OperBytes(field, encoding) + Bytes32(imm)), insn)
  {
    var front, back := OperBytes(field, encoding), Bytes32(imm);
    forall rest: seq<Byte> {:trigger front + back + rest}
      ensures DecodeOp(rex, op, front + back + rest) == Ok(insn, rest)
    {
      assert front + back + rest == front + (back + rest);
      OperandReads(rex, field, encoding, oper, rm, back + rest);
      Imm32Exact(imm, rest);
      OpRmImm32(rex, op, front + back + rest, field, rm, imm, back + rest, rest, insn);
    }
    LayoutOp(rex, op, front + back, insn);
  }

  lemma LayoutRmImm8(rex: Rex, field: nat, encoding: seq<Byte>, oper: Rex, rm: Rm, imm: int, insn: Insn)
    requires Describes(oper, encoding, rm) && rex.x == oper.x && rex.b == oper.b && Is8(imm)
    requires field < 8 && WithRmImm(0x83, rex, field, rm, imm) == Ok(insn, [])
    ensures Encodes(Prefix(rex) + [0x83] + (OperBytes(field, encoding) + [imm % 0x100]), insn)
  {
    var front, back: seq<Byte> := OperBytes(field, encoding), [imm % 0x100];
    forall rest: seq<Byte> {:trigger front + back + rest}
      ensures DecodeOp(rex, 0x83, front + back + rest) == Ok(insn, rest)
    {
      assert front + back + rest == front + (back + rest);
      OperandReads(rex, field, encoding, oper, rm, back + rest);
      DecodesImm8(imm, rest);
      OpRmImm8(rex, front + back + rest, field, rm, imm, back + rest, rest, insn);
    }
    LayoutOp(rex, 0x83, front + back, insn);
  }

  /** The accumulator form without a ModR/M byte. */
  lemma LayoutRaxImm32(rex: Rex, digit: nat, imm: int)
    requires rex.w && digit < 8 && Is32(imm)
    ensures Encodes(Prefix(rex) + [0x05 + 8 * digit] + Bytes32(imm), AluRmImm(AluOfDigit(digit), Direct(RAX), imm))
  {
    var op: Byte, tail := 0x05 + 8 * digit, Bytes32(imm);
    SplitOctal(digit, 5);
    forall rest: seq<Byte> {:trigger tail + rest}
      ensures DecodeOp(rex, op, tail + rest) == Ok(AluRmImm(AluOfDigit(digit), Direct(RAX), imm), rest)
    {
      Imm32Exact(imm, rest);
    }
    LayoutOp(rex, op, tail, AluRmImm(AluOfDigit(digit), Direct(RAX), imm));
  }

  lemma LayoutImm64(reg: Reg, imm: int)
    requires Is64(imm)
    ensures Encodes(Prefix(Rex(true, false, false, High(reg))) + [0xB8 + reg % 8] + Bytes64(imm), MovRegImm64(reg, imm))
  {
    var rex, op: Byte, tail := Rex(true, false, false, High(reg)), 0xB8 + reg % 8, Bytes64(imm);
    ExtendLow(reg);
    forall rest: seq<Byte> {:trigger tail + rest}
      ensures DecodeOp(rex, op, tail + rest) == Ok(MovRegImm64(reg, imm), rest)
    {
      DecodesImm64(imm, rest);
    }
    LayoutOp(rex, op, tail, MovRegImm64(reg, imm));
  }

  /** Push, pop and return: all in the opcode. */
  lemma LayoutOpcode(rex: Rex, op: Byte, insn: Insn)
    requires op == 0xC3 || 0x50 <= op < 0x60
    requires forall rest: seq<Byte> {:trigger DecodeOp(rex, op, rest)} :: DecodeOp(rex, op, rest) == Ok(insn, rest)
    ensures Encodes(Prefix(rex) + [op], insn)
  {
    forall rest: seq<Byte> {:trigger [] + rest} ensures DecodeOp(rex, op, [] + rest) == Ok(insn, rest) {
      assert [] + rest == rest;
    }
    LayoutOp(rex, op, [], insn);
    assert Prefix(rex) + [op] + [] == Prefix(rex) + [op];
  }

  lemma OpEscape(f2: bool, rex: Rex, op: Byte, tail: seq<Byte>, field: nat, rm: Rm, rest: seq<Byte>, insn: Insn)
    requires field < 8 && DecodeRm(rex, tail) == Ok((field, rm), rest)
    requires WithEscape(f2, op, rex, Extend(field, rex.r), rm) == Ok(insn, [])
    ensures DecodeEscape(f2, rex, [op] + tail) == Ok(insn, rest)
  {
    assert ([op] + tail)[1..] == tail;
  }

  function EscapeFront(f2: bool, rex: Rex, op: Byte): seq<Byte> {
    (if f2 then [0xF2] else []) + Prefix(rex) + [0x0F] + [op]
  }

  lemma EscapeReads(f2: bool, rex: Rex, op: Byte, tail: seq<Byte>, insn: Insn, rest: seq<Byte>)
    requires DecodeEscape(f2, rex, [op] + (tail + rest)) == Ok(insn, rest)
    ensures Decode(EscapeFront(f2, rex, op) + tail + rest) == Ok(insn, rest)
  {
    DecodesEscape(f2, rex, op, tail + rest);
    assert EscapeFront(f2, rex, op) + tail + rest == EscapeFront(f2, rex, op) + (tail + rest);
  }

  lemma LayoutEscape(f2: bool, rex: Rex, op: Byte, field: nat, encoding: seq<Byte>, oper: Rex, rm: Rm, insn: Insn)
    requires Describes(oper, encoding, rm) && rex.x == oper.x && rex.b == oper.b && field < 8
    requires WithEscape(f2, op, rex, Extend(field, rex.r), rm) == Ok(insn, [])
    ensures Encodes(EscapeFront(f2, rex, op) + OperBytes(field, encoding), insn)
  {
    var bytes := OperBytes(field, encoding);
    forall rest: seq<Byte> {:trigger EscapeFront(f2, rex, op) + bytes + rest}
      ensures Decode(EscapeFront(f2, rex, op) + bytes + rest) == Ok(insn, rest)
    {
      OperandReads(rex, field, encoding, oper, rm, rest);
      OpEscape(f2, rex, op, bytes + rest, field, rm, rest, insn);
      EscapeReads(f2, rex, op, bytes, insn, rest);
    }
  }

  lemma LayoutPushImm(imm: int)
    requires Is32(imm)
    ensures Is8(imm) ==> Encodes([0x6A] + [imm % 0x100], PushImm(imm))
    ensures Encodes([0x68] + Bytes32(imm), PushImm(imm))
  {
    if Is8(imm) {
      var short: seq<Byte> := [imm % 0x100];
      forall rest: seq<Byte> {:trigger short + rest}
        ensures DecodeOp(REX_NONE, 0x6A, short + rest) == Ok(PushImm(imm), rest)
      {
        DecodesImm8(imm, rest);
      }
      LayoutOp(REX_NONE, 0x6A, short, PushImm(imm));
      assert Prefix(REX_NONE) + [0x6A] == [0x6A];
    }
    var tail := Bytes32(imm);
    forall rest: seq<Byte> {:trigger tail + rest}
      ensures DecodeOp(REX_NONE, 0x68, tail + rest) == Ok(PushImm(imm), rest)
    {
      Imm32Exact(imm, rest);
    }
    LayoutOp(REX_NONE, 0x68, tail, PushImm(imm));
    assert Prefix(REX_NONE) + [0x68] == [0x68];
  }

  /** Making room on the stack; a size beyond 32 bits goes through the scratch register. */
  function ReserveInsns(size: int): seq<Insn> {
    if Is32(size) then [AluRmImm(SUB, Direct(RSP), size)] else [MovRegImm64(TMP, size), AluRegRm(SUB, RSP, Direct(TMP))]
  }

  function EnterInsns(size: int): seq<Insn> {
    if size == 0 then [PushReg(RBP), MovRmReg(Direct(RBP), RSP)]
    else [PushReg(RBP), MovRmReg(Direct(RBP), RSP)] + ReserveInsns(size)
  }

  // ----- the emitters

  class Assembler {
    var code: seq<Byte>

    constructor ()
      ensures code == []
    {
      code := [];
    }

    method EmitUint8(b: Byte)
      modifies this
      ensures code == old(code) + [b]
    {
      code := code + [b];
    }

    method EmitPrefix(rex: Rex)
      modifies this
      ensures code == old(code) + Prefix(rex)
    {
      if rex != REX_NONE {
        EmitUint8(RexByte(rex));
      }
    }

    /** emit_register_rex */
    method EmitRegisterRex(reg: Reg, w: bool)
      modifies this
      ensures code == old(code) + Prefix(Rex(w, false, false, High(reg)))
    {
      EmitPrefix(Rex(w, false, false, reg > 7));
    }

    /** emit_oper_rex. The source leaves out the operand's own bits. */
    method EmitOperRex(reg: Reg, oper: Operand, w: bool)
      modifies this
      ensures code == old(code) + Prefix(Rex(w || oper.rex.w, High(reg) || oper.rex.r, oper.rex.x, oper.rex.b))
    {
      EmitPrefix(Rex(w || oper.rex.w, reg > 7 || oper.rex.r, oper.rex.x, oper.rex.b));
    }

    method EmitOper(field: nat, oper: Operand)
      requires field < 8 && |oper.encoding| > 0 && oper.encoding[0] % 0x40 < 8
      modifies this
      ensures code == old(code) + OperBytes(field, oper.encoding)
    {
      FieldFits(oper.encoding[0], field);
      EmitUint8(oper.encoding[0] + 8 * field);
      var i := 1;
      while i < |oper.encoding|
        invariant 1 <= i <= |oper.encoding|
        invariant code == old(code) + [oper.encoding[0] + 8 * field] + oper.encoding[1..i]
      {
        EmitUint8(oper.encoding[i]);
        i := i + 1;
      }
    }

    /** emit_immediate */
    method EmitImmediate(imm: int)
      modifies this
      ensures code == old(code) + if Is32(imm) then Bytes32(imm) else Bytes64(imm)
    {
      if Is32(imm) {
        code := code + Bytes32(imm);
      } else {
        code := code + Bytes64(imm);
      }
    }

    /** A prefix, an opcode and an operand: the three steps most emitters share. */
    method EmitRm(w: bool, op: Byte, reg: Reg, oper: Operand, ghost rm: Rm, ghost insn: Insn)
      requires Describes(oper.rex, oper.encoding, rm) && PlainOpcode(op)
      requires WithRm(op, OperRex(w, reg, oper.rex), reg % 8, rm) == Ok(insn, [])
      modifies this
      ensures Appends(old(code), code, [insn])
    {
      ghost var rex := OperRex(w, reg, oper.rex);
      EmitOperRex(reg, oper, w);
      EmitUint8(op);
      EmitOper(reg % 8, oper);
      assert code == old(code) + (Prefix(rex) + [op] + OperBytes(reg % 8, oper.encoding));
      AppendsRm(old(code), code, rex, op, reg % 8, oper.encoding, oper.rex, rm, insn);
    }

    /** The same followed by a 32-bit immediate. */
    method EmitRmImm32(op: Byte, reg: Reg, oper: Operand, imm: int, ghost rm: Rm, ghost insn: Insn)
      requires Describes(oper.rex, oper.encoding, rm) && op in {0x69, 0xC7} && Is32(imm)
      requires WithRmImm(op, OperRex(true, reg, oper.rex), reg % 8, rm, imm) == Ok(insn, [])
      modifies this
      ensures Appends(old(code), code, [insn])
    {
      ghost var rex := OperRex(true, reg, oper.rex);
      ghost var bytes := OperBytes(reg % 8, oper.encoding);
      EmitOperRex(reg, oper, true);
      EmitUint8(op);
      EmitOper(reg % 8, oper);
      EmitImmediate(imm);
      LayoutRmImm32(rex, op, reg % 8, oper.encoding, oper.rex, rm, imm, insn);
      assert code == old(code) + (Prefix(rex) + [op] + (bytes + Bytes32(imm)));
      AppendsOne(old(code), code, Prefix(rex) + [op] + (bytes + Bytes32(imm)), insn);
    }

    /** emit_complex, behind a prefix with the operand's bits: the shortest of the three forms of an
        arithmetic instruction with an immediate. */
    method EmitComplex(digit: nat, oper: Operand, imm: int, ghost start: seq<Byte>, ghost rex: Rex, ghost rm: Rm)
      requires digit < 8 && Is32(imm)
      requires Describes(oper.rex, oper.encoding, rm)
      requires oper.encoding[0] / 64 == 3 ==> !oper.rex.x && rm == Direct(Extend(oper.encoding[0] % 8, oper.rex.b))
      requires rex == Rex(true, false, oper.rex.x, oper.rex.b) && code == start + Prefix(rex)
      modifies this
      ensures Appends(start, code, [AluRmImm(AluOfDigit(digit), rm, imm)])
      ensures |code| == |old(code)| + (if -0x80 <= imm < 0x80 then 2 + |oper.encoding|
                                       else if IsRegister(oper, RAX) then 5 else 5 + |oper.encoding|)
    {
      if Is8(imm) {
        EmitShortForm(digit, oper, imm, start, rex, rm);
      } else if IsRegister(oper, RAX) {
        EmitUint8(0x05 + 8 * digit);
        EmitImmediate(imm);
        LayoutRaxImm32(rex, digit, imm);
        assert code == start + (Prefix(rex) + [0x05 + 8 * digit] + Bytes32(imm));
        AppendsOne(start, code, Prefix(rex) + [0x05 + 8 * digit] + Bytes32(imm), AluRmImm(AluOfDigit(digit), rm, imm));
      } else {
        EmitLongForm(digit, oper, imm, start, rex, rm);
      }
    }

    method EmitShortForm(digit: nat, oper: Operand, imm: int, ghost start: seq<Byte>, ghost rex: Rex, ghost rm: Rm)
      requires digit < 8 && Is8(imm)
      requires Describes(oper.rex, oper.encoding, rm)
      requires rex == Rex(true, false, oper.rex.x, oper.rex.b) && code == start + Prefix(rex)
      modifies this
      ensures Appends(start, code, [AluRmImm(AluOfDigit(digit), rm, imm)])
      ensures |code| == |old(code)| + 2 + |oper.encoding|
    {
      ghost var form := Prefix(rex) + [0x83] + (OperBytes(digit, oper.encoding) + [imm % 0x100]);
      EmitUint8(0x83);
      EmitOper(digit, oper);
      EmitUint8(imm % 0x100);
      assert code == start + form;
      LayoutRmImm8(rex, digit, oper.encoding, oper.rex, rm, imm, AluRmImm(AluOfDigit(digit), rm, imm));
      AppendsOne(start, code, form, AluRmImm(AluOfDigit(digit), rm, imm));
    }

    method EmitLongForm(digit: nat, oper: Operand, imm: int, ghost start: seq<Byte>, ghost rex: Rex, ghost rm: Rm)
      requires digit < 8 && Is32(imm)
      requires Describes(oper.rex, oper.encoding, rm)
      requires rex == Rex(true, false, oper.rex.x, oper.rex.b) && code == start + Prefix(rex)
      modifies this
      ensures Appends(start, code, [AluRmImm(AluOfDigit(digit), rm, imm)])
      ensures |code| == |old(code)| + 5 + |oper.encoding|
    {
      ghost var form := Prefix(rex) + [0x81] + (OperBytes(digit, oper.encoding) + Bytes32(imm));
      EmitUint8(0x81);
      EmitOper(digit, oper);
      EmitImmediate(imm);
      assert code == start + form;
      LayoutRmImm32(rex, 0x81, digit, oper.encoding, oper.rex, rm, imm, AluRmImm(AluOfDigit(digit), rm, imm));
      AppendsOne(start, code, form, AluRmImm(AluOfDigit(digit), rm, imm));
    }

    /** is_register */
    predicate IsRegister(oper: Operand, reg: Reg)
      requires |oper.encoding| > 0
      reads oper
    {
      && (High(reg) <==> oper.rex == Rex(false, false, false, true))
      && oper.encoding[0] / 8 == 0x18
      && oper.encoding[0] % 8 == reg
    }

    // ----- moves

    /** The operand is the destination here. */
    method MovqRR(dst: Reg, src: Reg)
      modifies this
      ensures Appends(old(code), code, [MovRmReg(Direct(dst), src)])
    {
      var oper := new Operand();
      oper.InitRegister(dst);
      ExtendLow(src);
      EmitRm(true, 0x89, src, oper, Direct(dst), MovRmReg(Direct(dst), src));
    }

    method MovqRI(dst: Reg, src: int)
      requires Is64(src)
      modifies this
      ensures Appends(old(code), code, [if Is32(src) then MovRmImm(Direct(dst), src) else MovRegImm64(dst, src)])
    {
      if Is32(src) {
        var oper := new Operand();
        oper.InitRegister(dst);
        EmitRmImm32(0xC7, 0, oper, src, Direct(dst), MovRmImm(Direct(dst), src));
      } else {
        ghost var front := Prefix(Rex(true, false, false, High(dst)));
        EmitRegisterRex(dst, true);
        EmitUint8(0xB8 + dst % 8);
        EmitImmediate(src);
        LayoutImm64(dst, src);
        assert code == old(code) + (front + [0xB8 + dst % 8] + Bytes64(src));
        AppendsOne(old(code), code, front + [0xB8 + dst % 8] + Bytes64(src), MovRegImm64(dst, src));
      }
    }

    method MovqRA(dst: Reg, src: Operand, ghost rm: Rm)
      requires Describes(src.rex, src.encoding, rm)
      modifies this
      ensures Appends(old(code), code, [MovRegRm(dst, rm)])
    {
      ExtendLow(dst);
      EmitRm(true, 0x8B, dst, src, rm, MovRegRm(dst, rm));
    }

    method MovqAR(dst: Operand, src: Reg, ghost rm: Rm)
      requires Describes(dst.rex, dst.encoding, rm)
      modifies this
      ensures Appends(old(code), code, [MovRmReg(rm, src)])
    {
      ExtendLow(src);
      EmitRm(true, 0x89, src, dst, rm, MovRmReg(rm, src));
    }

    method MovqAI(dst: Operand, src: int, ghost rm: Rm)
      requires Is64(src) && Describes(dst.rex, dst.encoding, rm)
      modifies this
      ensures Appends(old(code), code,
                      if Is32(src) then [MovRmImm(rm, src)]
                      else [MovRegImm64(TMP, src), MovRmReg(rm, TMP)])
    {
      if Is32(src) {
        EmitRmImm32(0xC7, 0, dst, src, rm, MovRmImm(rm, src));
      } else {
        MovqRI(TMP, src);
        ghost var middle := code;
        MovqAR(dst, TMP, rm);
        AppendsTwo(old(code), middle, code, MovRegImm64(TMP, src), MovRmReg(rm, TMP));
      }
    }

    method Leaq(dst: Reg, src: Operand, ghost rm: Rm)
      requires Describes(src.rex, src.encoding, rm) && !rm.Direct?
      modifies this
      ensures Appends(old(code), code, [Lea(dst, rm)])
    {
      EmitRm(true, 0x8D, dst, src, rm, Lea(dst, rm));
    }

    // ----- arithmetic

    method AddqRR(dst: Reg, src: Reg)
      modifies this
      ensures Appends(old(code), code, [AluRegRm(ADD, dst, Direct(src))])
    {
      var oper := new Operand();
      oper.InitRegister(src);
      AluWithReg(ADD, dst, oper.rex, Direct(src));
      EmitRm(true, 0x03, dst, oper, Direct(src), AluRegRm(ADD, dst, Direct(src)));
    }

    method AddqRA(dst: Reg, src: Operand, ghost rm: Rm)
      requires Describes(src.rex, src.encoding, rm)
      modifies this
      ensures Appends(old(code), code, [AluRegRm(ADD, dst, rm)])
    {
      AluWithReg(ADD, dst, src.rex, rm);
      EmitRm(true, 0x03, dst, src, rm, AluRegRm(ADD, dst, rm));
    }

    method AddqAR(dst: Operand, src: Reg, ghost rm: Rm)
      requires Describes(dst.rex, dst.encoding, rm)
      modifies this
      ensures Appends(old(code), code, [AluRmReg(ADD, rm, src)])
    {
      AluWithReg(ADD, src, dst.rex, rm);
      EmitRm(true, 0x01, src, dst, rm, AluRmReg(ADD, rm, src));
    }

    method AddqRI(dst: Reg, src: int)
      requires Is64(src)
      modifies this
      ensures Appends(old(code), code,
                      if Is32(src) then [AluRmImm(ADD, Direct(dst), src)]
                      else [MovRegImm64(TMP, src), AluRegRm(ADD, dst, Direct(TMP))])
    {
      if Is32(src) {
        EmitRegisterRex(dst, true);
        var oper := new Operand();
        oper.InitRegister(dst);
        EmitComplex(0, oper, src, old(code), Rex(true, false, false, High(dst)), Direct(dst));
      } else {
        MovqRI(TMP, src);
        ghost var middle := code;
        AddqRR(dst, TMP);
        AppendsTwo(old(code), middle, code, MovRegImm64(TMP, src), AluRegRm(ADD, dst, Direct(TMP)));
      }
    }

    method AddqAI(dst: Operand, src: int, ghost rm: Rm)
      requires Is64(src) && Describes(dst.rex, dst.encoding, rm) && dst.encoding[0] / 64 != 3
      modifies this
      ensures Appends(old(code), code,
                      if Is32(src) then [AluRmImm(ADD, rm, src)]
                      else [MovRegImm64(TMP, src), AluRmReg(ADD, rm, TMP)])
    {
      if Is32(src) {
        EmitOperRex(0, dst, true);
        EmitComplex(0, dst, src, old(code), Rex(true, false, dst.rex.x, dst.rex.b), rm);
      } else {
        MovqRI(TMP, src);
        ghost var middle := code;
        AddqAR(dst, TMP, rm);
        AppendsTwo(old(code), middle, code, MovRegImm64(TMP, src), AluRmReg(ADD, rm, TMP));
      }
    }

    method SubqRR(dst: Reg, src: Reg)
      modifies this
      ensures Appends(old(code), code, [AluRegRm(SUB, dst, Direct(src))])
    {
      var oper := new Operand();
      oper.InitRegister(src);
      AluWithReg(SUB, dst, oper.rex, Direct(src));
      EmitRm(true, 0x2B, dst, oper, Direct(src), AluRegRm(SUB, dst, Direct(src)));
    }

    method SubqRA(dst: Reg, src: Operand, ghost rm: Rm)
      requires Describes(src.rex, src.encoding, rm)
      modifies this
      ensures Appends(old(code), code, [AluRegRm(SUB, dst, rm)])
    {
      AluWithReg(SUB, dst, src.rex, rm);
      EmitRm(true, 0x2B, dst, src, rm, AluRegRm(SUB, dst, rm));
    }

    method SubqAR(dst: Operand, src: Reg, ghost rm: Rm)
      requires Describes(dst.rex, dst.encoding, rm)
      modifies this
      ensures Appends(old(code), code, [AluRmReg(SUB, rm, src)])
    {
      AluWithReg(SUB, src, dst.rex, rm);
      EmitRm(true, 0x29, src, dst, rm, AluRmReg(SUB, rm, src));
    }

    method SubqRI(dst: Reg, src: int)
      requires Is64(src)
      modifies this
      ensures Appends(old(code), code,
                      if Is32(src) then [AluRmImm(SUB, Direct(dst), src)]
                      else [MovRegImm64(TMP, src), AluRegRm(SUB, dst, Direct(TMP))])
    {
      if Is32(src) {
        EmitRegisterRex(dst, true);
        var oper := new Operand();
        oper.InitRegister(dst);
        EmitComplex(5, oper, src, old(code), Rex(true, false, false, High(dst)), Direct(dst));
      } else {
        MovqRI(TMP, src);
        ghost var middle := code;
        SubqRR(dst, TMP);
        AppendsTwo(old(code), middle, code, MovRegImm64(TMP, src), AluRegRm(SUB, dst, Direct(TMP)));
      }
    }

    method SubqAI(dst: Operand, src: int, ghost rm: Rm)
      requires Is64(src) && Describes(dst.rex, dst.encoding, rm) && dst.encoding[0] / 64 != 3
      modifies this
      ensures Appends(old(code), code,
                      if Is32(src) then [AluRmImm(SUB, rm, src)]
                      else [MovRegImm64(TMP, src), AluRmReg(SUB, rm, TMP)])
    {
      if Is32(src) {
        EmitOperRex(0, dst, true);
        EmitComplex(5, dst, src, old(code), Rex(true, false, dst.rex.x, dst.rex.b), rm);
      } else {
        MovqRI(TMP, src);
        ghost var middle := code;
        SubqAR(dst, TMP, rm);
        AppendsTwo(old(code), middle, code, MovRegImm64(TMP, src), AluRmReg(SUB, rm, TMP));
      }
    }

    method AndqRR(dst: Reg, src: Reg)
      modifies this
      ensures Appends(old(code), code, [AluRegRm(AND, dst, Direct(src))])
    {
      var oper := new Operand();
      oper.InitRegister(src);
      AluWithReg(AND, dst, oper.rex, Direct(src));
      EmitRm(true, 0x23, dst, oper, Direct(src), AluRegRm(AND, dst, Direct(src)));
    }

    method AndqRI(dst: Reg, src: int)
      requires Is64(src)
      modifies this
      ensures Appends(old(code), code,
                      if Is32(src) then [AluRmImm(AND, Direct(dst), src)]
                      else [MovRegImm64(TMP, src), AluRegRm(AND, dst, Direct(TMP))])
    {
      if Is32(src) {
        EmitRegisterRex(dst, true);
        var oper := new Operand();
        oper.InitRegister(dst);
        EmitComplex(4, oper, src, old(code), Rex(true, false, false, High(dst)), Direct(dst));
      } else {
        MovqRI(TMP, src);
        ghost var middle := code;
        AndqRR(dst, TMP);
        AppendsTwo(old(code), middle, code, MovRegImm64(TMP, src), AluRegRm(AND, dst, Direct(TMP)));
      }
    }

    method CmpqRR(dst: Reg, src: Reg)
      modifies this
      ensures Appends(old(code), code, [AluRegRm(CMP, dst, Direct(src))])
    {
      var oper := new Operand();
      oper.InitRegister(src);
      AluWithReg(CMP, dst, oper.rex, Direct(src));
      EmitRm(true, 0x3B, dst, oper, Direct(src), AluRegRm(CMP, dst, Direct(src)));
    }

    method CmpqRI(dst: Reg, src: int)
      requires Is64(src)
      modifies this
      ensures Appends(old(code), code,
                      if Is32(src) then [AluRmImm(CMP, Direct(dst), src)]
                      else [MovRegImm64(TMP, src), AluRegRm(CMP, dst, Direct(TMP))])
    {
      if Is32(src) {
        EmitRegisterRex(dst, true);
        var oper := new Operand();
        oper.InitRegister(dst);
        EmitComplex(7, oper, src, old(code), Rex(true, false, false, High(dst)), Direct(dst));
      } else {
        MovqRI(TMP, src);
        ghost var middle := code;
        CmpqRR(dst, TMP);
        AppendsTwo(old(code), middle, code, MovRegImm64(TMP, src), AluRegRm(CMP, dst, Direct(TMP)));
      }
    }

    method TestqRR(r1: Reg, r2: Reg)
      modifies this
      ensures Appends(old(code), code, [TestRmReg(Direct(r2), r1)])
    {
      var oper := new Operand();
      oper.InitRegister(r2);
      ExtendLow(r1);
      EmitRm(true, 0x85, r1, oper, Direct(r2), TestRmReg(Direct(r2), r1));
    }

    method MulqRR(dst: Reg, src: Reg)
      modifies this
      ensures Appends(old(code), code, [ImulRegRm(dst, Direct(src))])
    {
      var oper := new Operand();
      oper.InitRegister(src);
      ghost var rex := OperRex(true, dst, oper.rex);
      EmitOperRex(dst, oper, true);
      EmitUint8(0x0F);
      EmitUint8(0xAF);
      EmitOper(dst % 8, oper);
      ExtendLow(dst);
      LayoutEscape(false, rex, 0xAF, dst % 8, oper.encoding, oper.rex, Direct(src), ImulRegRm(dst, Direct(src)));
      ghost var form: seq<Byte> := EscapeFront(false, rex, 0xAF) + OperBytes(dst % 8, oper.encoding);
      assert code == old(code) + form;
      AppendsOne(old(code), code, form, ImulRegRm(dst, Direct(src)));
    }

    method MulqRI(dst: Reg, src: int)
      requires Is64(src)
      modifies this
      ensures Appends(old(code), code,
                      if Is32(src) then [ImulRegRmImm(dst, Direct(dst), src)]
                      else [MovRegImm64(TMP, src), ImulRegRm(dst, Direct(TMP))])
    {
      if Is32(src) {
        var oper := new Operand();
        oper.InitRegister(dst);
        ExtendLow(dst);
        EmitRmImm32(0x69, dst, oper, src, Direct(dst), ImulRegRmImm(dst, Direct(dst), src));
      } else {
        MovqRI(TMP, src);
        ghost var middle := code;
        MulqRR(dst, TMP);
        AppendsTwo(old(code), middle, code, MovRegImm64(TMP, src), ImulRegRm(dst, Direct(TMP)));
      }
    }

    // ----- the stack, jumps and calls

    method PushR(src: Reg)
      modifies this
      ensures Appends(old(code), code, [PushReg(src)])
    {
      ghost var rex := Rex(false, false, false, High(src));
      EmitRegisterRex(src, false);
      EmitUint8(0x50 + src % 8);
      ExtendLow(src);
      LayoutOpcode(rex, 0x50 + src % 8, PushReg(src));
      assert code == old(code) + (Prefix(rex) + [0x50 + src % 8]);
      AppendsOne(old(code), code, Prefix(rex) + [0x50 + src % 8], PushReg(src));
    }

    method PopR(dst: Reg)
      modifies this
      ensures Appends(old(code), code, [PopReg(dst)])
    {
      ghost var rex := Rex(false, false, false, High(dst));
      EmitRegisterRex(dst, false);
      EmitUint8(0x58 + dst % 8);
      ExtendLow(dst);
      LayoutOpcode(rex, 0x58 + dst % 8, PopReg(dst));
      assert code == old(code) + (Prefix(rex) + [0x58 + dst % 8]);
      AppendsOne(old(code), code, Prefix(rex) + [0x58 + dst % 8], PopReg(dst));
    }

    method PushI(src: int)
      requires Is64(src)
      modifies this
      ensures Appends(old(code), code, if Is32(src) then [PushImm(src)] else [MovRegImm64(TMP, src), PushReg(TMP)])
      ensures Is32(src) ==> |code| == |old(code)| + (if -0x80 <= src < 0x80 then 2 else 5)
    {
      if Is8(src) {
        EmitUint8(0x6A);
        EmitUint8(src % 0x100);
        LayoutPushImm(src);
        assert code == old(code) + ([0x6A] + [src % 0x100]);
        AppendsOne(old(code), code, [0x6A] + [src % 0x100], PushImm(src));
      } else if Is32(src) {
        EmitUint8(0x68);
        EmitImmediate(src);
        LayoutPushImm(src);
        assert code == old(code) + ([0x68] + Bytes32(src));
        AppendsOne(old(code), code, [0x68] + Bytes32(src), PushImm(src));
      } else {
        MovqRI(TMP, src);
        ghost var middle := code;
        PushR(TMP);
        AppendsTwo(old(code), middle, code, MovRegImm64(TMP, src), PushReg(TMP));
      }
    }

    method PushA(src: Operand, ghost rm: Rm)
      requires Describes(src.rex, src.encoding, rm)
      modifies this
      ensures Appends(old(code), code, [PushRm(rm)])
    {
      EmitRm(false, 0xFF, 6, src, rm, PushRm(rm));
    }

    method PopA(dst: Operand, ghost rm: Rm)
      requires Describes(dst.rex, dst.encoding, rm)
      modifies this
      ensures Appends(old(code), code, [PopRm(rm)])
    {
      EmitRm(false, 0x8F, 0, dst, rm, PopRm(rm));
    }

    method JmpR(dst: Reg)
      modifies this
      ensures Appends(old(code), code, [JmpRm(Direct(dst))])
    {
      var oper := new Operand();
      oper.InitRegister(dst);
      EmitRm(false, 0xFF, 4, oper, Direct(dst), JmpRm(Direct(dst)));
    }

    method JmpA(dst: Operand, ghost rm: Rm)
      requires Describes(dst.rex, dst.encoding, rm)
      modifies this
      ensures Appends(old(code), code, [JmpRm(rm)])
    {
      EmitRm(false, 0xFF, 4, dst, rm, JmpRm(rm));
    }

    method CallR(reg: Reg)
      modifies this
      ensures Appends(old(code), code, [CallRm(Direct(reg))])
    {
      var oper := new Operand();
      oper.InitRegister(reg);
      EmitRm(false, 0xFF, 2, oper, Direct(reg), CallRm(Direct(reg)));
    }

    method RetInsn()
      modifies this
      ensures Appends(old(code), code, [Ret])
    {
      EmitUint8(0xC3);
      LayoutOpcode(REX_NONE, 0xC3, Ret);
      assert code == old(code) + (Prefix(REX_NONE) + [0xC3]);
      AppendsOne(old(code), code, Prefix(REX_NONE) + [0xC3], Ret);
    }

    /** asm_enter_frame: save the frame pointer, set it, make room. */
    method EnterFrame(size: int)
      requires Is64(size)
      modifies this
      ensures Appends(old(code), code, EnterInsns(size))
    {
      PushR(RBP);
      ghost var pushed := code;
      MovqRR(RBP, RSP);
      ghost var moved := code;
      AppendsTwo(old(code), pushed, moved, PushReg(RBP), MovRmReg(Direct(RBP), RSP));
      if size != 0 {
        SubqRI(RSP, size);
        AppendsBoth(old(code), moved, code, [PushReg(RBP), MovRmReg(Direct(RBP), RSP)], ReserveInsns(size));
      }
    }

    method LeaveFrame()
      modifies this
      ensures Appends(old(code), code, [MovRmReg(Direct(RSP), RBP), PopReg(RBP)])
    {
      MovqRR(RSP, RBP);
      ghost var moved := code;
      PopR(RBP);
      AppendsTwo(old(code), moved, code, MovRmReg(Direct(RSP), RBP), PopReg(RBP));
    }

    // ----- floating point

    /** F2, prefix, 0F, opcode, operand. */
    method EmitEscape(op: Byte, reg: Reg, oper: Operand, ghost rm: Rm, ghost insn: Insn)
      requires Describes(oper.rex, oper.encoding, rm)
      requires WithEscape(true, op, OperRex(false, reg, oper.rex), reg, rm) == Ok(insn, [])
      modifies this
      ensures Appends(old(code), code, [insn])
    {
      ghost var rex := OperRex(false, reg, oper.rex);
      EmitUint8(0xF2);
      EmitPrefix(Rex(oper.rex.w, reg > 7 || oper.rex.r, oper.rex.x, oper.rex.b));
      EmitUint8(0x0F);
      EmitUint8(op);
      EmitOper(reg % 8, oper);
      ExtendLow(reg);
      LayoutEscape(true, rex, op, reg % 8, oper.encoding, oper.rex, rm, insn);
      ghost var form: seq<Byte> := EscapeFront(true, rex, op) + OperBytes(reg % 8, oper.encoding);
      assert code == old(code) + form;
      AppendsOne(old(code), code, form, insn);
    }

    method MovsdRA(dst: Reg, src: Operand, ghost rm: Rm)
      requires Describes(src.rex, src.encoding, rm)
      modifies this
      ensures Appends(old(code), code, [MovsdRegRm(dst, rm)])
    {
      EmitEscape(0x10, dst, src, rm, MovsdRegRm(dst, rm));
    }

    method MovsdAR(dst: Operand, src: Reg, ghost rm: Rm)
      requires Describes(dst.rex, dst.encoding, rm)
      modifies this
      ensures Appends(old(code), code, [MovsdRmReg(rm, src)])
    {
      EmitEscape(0x11, src, dst, rm, MovsdRmReg(rm, src));
    }

    /** The source passes the registers to the prefix in the wrong order. */
    method AddsdRR(dst: Reg, src: Reg)
      modifies this
      ensures Appends(old(code), code, [Sse(ADDSD, dst, Direct(src))])
    {
      var oper := new Operand();
      oper.InitRegister(src);
      EmitEscape(0x58, dst, oper, Direct(src), Sse(ADDSD, dst, Direct(src)));
    }

    method SubsdRR(dst: Reg, src: Reg)
      modifies this
      ensures Appends(old(code), code, [Sse(SUBSD, dst, Direct(src))])
    {
      var oper := new Operand();
      oper.InitRegister(src);
      EmitEscape(0x5C, dst, oper, Direct(src), Sse(SUBSD, dst, Direct(src)));
    }

    method MulsdRR(dst: Reg, src: Reg)
      modifies this
      ensures Appends(old(code), code, [Sse(MULSD, dst, Direct(src))])
    {
      var oper := new Operand();
      oper.InitRegister(src);
      EmitEscape(0x59, dst, oper, Direct(src), Sse(MULSD, dst, Direct(src)));
    }

    method DivsdRR(dst: Reg, src: Reg)
      modifies this
      ensures Appends(old(code), code, [Sse(DIVSD, dst, Direct(src))])
    {
      var oper := new Operand();
      oper.InitRegister(src);
      EmitEscape(0x5E, dst, oper, Direct(src), Sse(DIVSD, dst, Direct(src)));
    }
  }
}
