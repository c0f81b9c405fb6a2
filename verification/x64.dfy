/** The 64-bit instructions the assembler emits, and a decoder for them that follows the Intel 64 and IA-32
    Architectures Software Developer's Manual, Volume 2A: sections 2.1.3 and 2.1.5 (ModR/M and SIB bytes) and
    2.2.1 (REX prefixes). */
module X64 {
  import opened Words

  const RAX: Reg := 0
  const RSP: Reg := 4
  const RBP: Reg := 5
  const R12: Reg := 12

  /** The operand a ModR/M byte selects. */
  datatype Rm =
    | Direct(reg: Reg)
    | Based(base: Reg, disp: int)
    | Scaled(index: Reg, scale: nat, disp: int)
    | BasedScaled(base: Reg, index: Reg, scale: nat, disp: int)
    | Absolute(disp: int)
    | RipRelative(disp: int)

  datatype AluOp = ADD | OR | ADC | SBB | AND | SUB | XOR | CMP

  function Digit(op: AluOp): nat {
    match op
    case ADD => 0 case OR => 1 case ADC => 2 case SBB => 3
    case AND => 4 case SUB => 5 case XOR => 6 case CMP => 7
  }

  function AluOfDigit(d: nat): AluOp {
    match d
    case 0 => ADD case 1 => OR case 2 => ADC case 3 => SBB
    case 4 => AND case 5 => SUB case 6 => XOR case _ => CMP
  }

  datatype SseOp = ADDSD | MULSD | SUBSD | DIVSD

  datatype Insn =
    | AluRegRm(op: AluOp, reg: Reg, rm: Rm)
    | AluRmReg(op: AluOp, rm: Rm, reg: Reg)
    | AluRmImm(op: AluOp, rm: Rm, imm: int)
    | MovRegRm(reg: Reg, rm: Rm)
    | MovRmReg(rm: Rm, reg: Reg)
    | MovRmImm(rm: Rm, imm: int)
    | MovRegImm64(reg: Reg, imm: int)
    | Lea(reg: Reg, rm: Rm)
    | ImulRegRm(reg: Reg, rm: Rm)
    | ImulRegRmImm(reg: Reg, rm: Rm, imm: int)
    | TestRmReg(rm: Rm, reg: Reg)
    | PushReg(reg: Reg)
    | PushImm(imm: int)
    | PushRm(rm: Rm)
    | PopReg(reg: Reg)
    | PopRm(rm: Rm)
    | JmpRm(rm: Rm)
    | CallRm(rm: Rm)
    | Ret
    | MovsdRegRm(reg: Reg, rm: Rm)
    | MovsdRmReg(rm: Rm, reg: Reg)
    | Sse(sse: SseOp, reg: Reg, rm: Rm)

  datatype Rex = Rex(w: bool, r: bool, x: bool, b: bool)

  const REX_NONE := Rex(false, false, false, false)

  function Flag(b: bool): nat {
    if b then 1 else 0
  }

  function RexByte(rex: Rex): Byte {
    0x40 + 8 * Flag(rex.w) + 4 * Flag(rex.r) + 2 * Flag(rex.x) + Flag(rex.b)
  }

  /** The extension bit of a field, applied to its three low bits. */
  function Extend(low: nat, ext: bool): Reg
    requires low < 8
  {
    low + 8 * Flag(ext)
  }

  // ----- little-endian integers

  function UnsignedOf(b: seq<Byte>): nat
    requires |b| == 4
  {
    Value(b[0]) + 0x100 * Value(b[1]) + 0x1_0000 * Value(b[2]) + 0x100_0000 * Value(b[3])
  }

  function Value(b: Byte): nat {
    b
  }

  function SignedOf(b: seq<Byte>): int
    requires |b| == 4
  {
    var u := UnsignedOf(b);
    if u < 0x8000_0000 then u else u - 0x1_0000_0000
  }

  function SignedOf8(b: Byte): int {
    if b < 0x80 then b else b - 0x100
  }

  function SignedOf64(b: seq<Byte>): int
    requires |b| == 8
  {
    UnsignedOf(b[..4]) + 0x1_0000_0000 * SignedOf(b[4..])
  }

  // ----- decoding

  /** The decoded value and the bytes after it. */
  datatype Decoded<+T> = Fail | Ok(value: T, rest: seq<Byte>)

  function DecodeImm8(bytes: seq<Byte>): Decoded<int> {
    if |bytes| < 1 then Fail else Ok(SignedOf8(bytes[0]), bytes[1..])
  }

  function DecodeImm32(bytes: seq<Byte>): Decoded<int> {
    if |bytes| < 4 then Fail else Ok(SignedOf(bytes[..4]), bytes[4..])
  }

  function DecodeImm64(bytes: seq<Byte>): Decoded<int> {
    if |bytes| < 8 then Fail else Ok(SignedOf64(bytes[..8]), bytes[8..])
  }

  /** The displacement a mod field calls for. */
  function DecodeDisp(mod: nat, bytes: seq<Byte>): Decoded<int> {
    if mod == 0 then Ok(0, bytes)
    else if mod == 1 then DecodeImm8(bytes)
    else DecodeImm32(bytes)
  }

  /** ModR/M, SIB and displacement: the reg field (three bits) and the operand. */
  function DecodeRm(rex: Rex, bytes: seq<Byte>): Decoded<(nat, Rm)> {
    if |bytes| == 0 then Fail
    else
      var mod, field, low, rest := bytes[0] / 64, (bytes[0] / 8) % 8, bytes[0] % 8, bytes[1..];
      if mod == 3 then Ok((field, Direct(Extend(low, rex.b))), rest)
      else if low == 4 then
        match DecodeSib(rex, mod, rest)
        case Fail => Fail
        case Ok(rm, after) => Ok((field, rm), after)
      else if mod == 0 && low == 5 then
        match DecodeImm32(rest)
        case Fail => Fail
        case Ok(disp, after) => Ok((field, RipRelative(disp)), after)
      else
        match DecodeDisp(mod, rest)
        case Fail => Fail
        case Ok(disp, after) => Ok((field, Based(Extend(low, rex.b), disp)), after)
  }

  function DecodeSib(rex: Rex, mod: nat, bytes: seq<Byte>): Decoded<Rm> {
    if |bytes| == 0 then Fail
    else
      var scale, index, base, rest := bytes[0] / 64, Extend((bytes[0] / 8) % 8, rex.x), bytes[0] % 8, bytes[1..];
      if base == 5 && mod == 0 then
        match DecodeImm32(rest)
        case Fail => Fail
        case Ok(disp, after) => Ok(if index == 4 then Absolute(disp) else Scaled(index, scale, disp), after)
      else
        match DecodeDisp(mod, rest)
        case Fail => Fail
        case Ok(disp, after) =>
          Ok(if index == 4 then Based(Extend(base, rex.b), disp)
              else BasedScaled(Extend(base, rex.b), index, scale, disp), after)
  }

  /** An operand followed by an immediate. */
  function DecodeRmImm32(rex: Rex, bytes: seq<Byte>): Decoded<((nat, Rm), int)> {
    match DecodeRm(rex, bytes)
    case Fail => Fail
    case Ok(operand, rest) =>
      match DecodeImm32(rest)
      case Fail => Fail
      case Ok(imm, after) => Ok((operand, imm), after)
  }

  function DecodeRmImm8(rex: Rex, bytes: seq<Byte>): Decoded<((nat, Rm), int)> {
    match DecodeRm(rex, bytes)
    case Fail => Fail
    case Ok(operand, rest) =>
      match DecodeImm8(rest)
      case Fail => Fail
      case Ok(imm, after) => Ok((operand, imm), after)
  }

  /** What the reg field of an opcode with a full-size operand means. */
  function WithRm(op: Byte, rex: Rex, field: nat, rm: Rm): Decoded<Insn>
    requires field < 8
  {
    var reg := Extend(field, rex.r);
    if op < 0x40 && op % 8 == 3 && rex.w then Ok(AluRegRm(AluOfDigit(op / 8), reg, rm), [])
    else if op < 0x40 && op % 8 == 1 && rex.w then Ok(AluRmReg(AluOfDigit(op / 8), rm, reg), [])
    else if op == 0x85 && rex.w then Ok(TestRmReg(rm, reg), [])
    else if op == 0x89 && rex.w then Ok(MovRmReg(rm, reg), [])
    else if op == 0x8B && rex.w then Ok(MovRegRm(reg, rm), [])
    else if op == 0x8D && rex.w && !rm.Direct? then Ok(Lea(reg, rm), [])
    else if op == 0x8F && field == 0 then Ok(PopRm(rm), [])
    else if op == 0xFF && field == 2 then Ok(CallRm(rm), [])
    else if op == 0xFF && field == 4 then Ok(JmpRm(rm), [])
    else if op == 0xFF && field == 6 then Ok(PushRm(rm), [])
    else Fail
  }

  function WithRmImm(op: Byte, rex: Rex, field: nat, rm: Rm, imm: int): Decoded<Insn>
    requires field < 8
  {
    if (op == 0x81 || op == 0x83) && rex.w then Ok(AluRmImm(AluOfDigit(field), rm, imm), [])
    else if op == 0x69 && rex.w then Ok(ImulRegRmImm(Extend(field, rex.r), rm, imm), [])
    else if op == 0xC7 && field == 0 && rex.w then Ok(MovRmImm(rm, imm), [])
    else Fail
  }

  /** One-byte opcodes. */
  function DecodeOp(rex: Rex, op: Byte, bytes: seq<Byte>): Decoded<Insn> {
    if op == 0xC3 then Ok(Ret, bytes)
    else if 0x50 <= op < 0x58 then Ok(PushReg(Extend(op - 0x50, rex.b)), bytes)
    else if 0x58 <= op < 0x60 then Ok(PopReg(Extend(op - 0x58, rex.b)), bytes)
    else if op == 0x68 then
      match DecodeImm32(bytes) {
        case Fail => Fail
        case Ok(imm, rest) => Ok(PushImm(imm), rest)
      }
    else if op == 0x6A then
      match DecodeImm8(bytes) {
        case Fail => Fail
        case Ok(imm, rest) => Ok(PushImm(imm), rest)
      }
    else if op < 0x40 && op % 8 == 5 && rex.w then
      match DecodeImm32(bytes) {
        case Fail => Fail
        case Ok(imm, rest) => Ok(AluRmImm(AluOfDigit(op / 8), Direct(RAX), imm), rest)
      }
    else if 0xB8 <= op < 0xC0 && rex.w then
      match DecodeImm64(bytes) {
        case Fail => Fail
        case Ok(imm, rest) => Ok(MovRegImm64(Extend(op - 0xB8, rex.b), imm), rest)
      }
    else if op == 0x69 || op == 0x81 || op == 0xC7 then
      match DecodeRmImm32(rex, bytes) {
        case Fail => Fail
        case Ok(((field, rm), imm), rest) =>
          Finish(if field < 8 then WithRmImm(op, rex, field, rm, imm) else Fail, rest)
      }
    else if op == 0x83 then
      match DecodeRmImm8(rex, bytes) {
        case Fail => Fail
        case Ok(((field, rm), imm), rest) =>
          Finish(if field < 8 then WithRmImm(op, rex, field, rm, imm) else Fail, rest)
      }
    else
      match DecodeRm(rex, bytes) {
        case Fail => Fail
        case Ok((field, rm), rest) => Finish(if field < 8 then WithRm(op, rex, field, rm) else Fail, rest)
      }
  }

  function Finish(d: Decoded<Insn>, rest: seq<Byte>): Decoded<Insn> {
    match d
    case Fail => Fail
    case Ok(i, _) => Ok(i, rest)
  }

  /** Opcodes after the escape byte 0F, without and with the F2 prefix. */
  function DecodeEscape(f2: bool, rex: Rex, bytes: seq<Byte>): Decoded<Insn> {
    if |bytes| == 0 then Fail
    else
      match DecodeRm(rex, bytes[1..])
      case Fail => Fail
      case Ok((field, rm), rest) =>
        Finish(if field < 8 then WithEscape(f2, bytes[0], rex, Extend(field, rex.r), rm) else Fail, rest)
  }

  function WithEscape(f2: bool, op: Byte, rex: Rex, reg: Reg, rm: Rm): Decoded<Insn> {
    if !f2 && op == 0xAF && rex.w then Ok(ImulRegRm(reg, rm), [])
    else if f2 && op == 0x10 then Ok(MovsdRegRm(reg, rm), [])
    else if f2 && op == 0x11 then Ok(MovsdRmReg(rm, reg), [])
    else if f2 && op == 0x58 then Ok(Sse(ADDSD, reg, rm), [])
    else if f2 && op == 0x59 then Ok(Sse(MULSD, reg, rm), [])
    else if f2 && op == 0x5C then Ok(Sse(SUBSD, reg, rm), [])
    else if f2 && op == 0x5E then Ok(Sse(DIVSD, reg, rm), [])
    else Fail
  }

  /** An optional REX prefix, directly before the opcode. */
  function SplitRex(bytes: seq<Byte>): (Rex, seq<Byte>) {
    if |bytes| > 0 && 0x40 <= bytes[0] < 0x50 then
      var low := bytes[0] - 0x40;
      (Rex(low / 8 == 1, (low / 4) % 2 == 1, (low / 2) % 2 == 1, low % 2 == 1), bytes[1..])
    else (REX_NONE, bytes)
  }

  function Decode(bytes: seq<Byte>): Decoded<Insn> {
    var f2 := |bytes| > 0 && bytes[0] == 0xF2;
    var (rex, rest) := SplitRex(if f2 then bytes[1..] else bytes);
    if |rest| == 0 then Fail
    else if rest[0] == 0x0F then DecodeEscape(f2, rex, rest[1..])
    else if f2 then Fail
    else DecodeOp(rex, rest[0], rest[1..])
  }

  /** Decoding n instructions in a row. */
  function DecodeMany(decode: seq<Byte> -> Decoded<Insn>, bytes: seq<Byte>, n: nat): Decoded<seq<Insn>>
    decreases n
  {
    if n == 0 then Ok([], bytes)
    else
      match decode(bytes)
      case Fail => Fail
      case Ok(i, rest) =>
        match DecodeMany(decode, rest, n - 1)
        case Fail => Fail
        case Ok(insns, after) => Ok([i] + insns, after)
  }

  // ----- encodings from the instruction set reference

  /** push rbp; pop r12; ret; call rax; jmp rax */
  lemma KnownStack()
    ensures Decode([0x55]) == Ok(PushReg(5), [])
    ensures Decode([0x41, 0x5C]) == Ok(PopReg(12), [])
    ensures Decode([0xC3]) == Ok(Ret, [])
    ensures Decode([0xFF, 0xD0]) == Ok(CallRm(Direct(0)), [])
    ensures Decode([0xFF, 0xE0]) == Ok(JmpRm(Direct(0)), [])
  {
    assert [0x41, 0x5C][1..] == [0x5C];
    assert [0xFF, 0xD0][1..] == [0xD0];
    assert [0xFF, 0xE0][1..] == [0xE0];
  }

  /** mov rbp, rsp; mov rax, [rbp - 8] */
  lemma KnownMove()
    ensures Decode([0x48, 0x89, 0xE5]) == Ok(MovRmReg(Direct(5), 4), [])
    ensures Decode([0x48, 0x8B, 0x45, 0xF8]) == Ok(MovRegRm(0, Based(5, -8)), [])
  {
    assert [0x48, 0x89, 0xE5][1..] == [0x89, 0xE5];
    assert [0x89, 0xE5][1..] == [0xE5];
    assert [0x48, 0x8B, 0x45, 0xF8][1..] == [0x8B, 0x45, 0xF8];
    assert [0x8B, 0x45, 0xF8][1..] == [0x45, 0xF8];
    assert [0x45, 0xF8][1..] == [0xF8];
  }

  /** mov [rsp + 8], rdx */
  lemma KnownStore()
    ensures Decode([0x48, 0x89, 0x54, 0x24, 0x08]) == Ok(MovRmReg(Based(4, 8), 2), [])
  {
    assert [0x48, 0x89, 0x54, 0x24, 0x08][1..] == [0x89, 0x54, 0x24, 0x08];
    assert [0x89, 0x54, 0x24, 0x08][1..] == [0x54, 0x24, 0x08];
    assert [0x54, 0x24, 0x08][1..] == [0x24, 0x08];
    assert [0x24, 0x08][1..] == [0x08];
  }

  /** lea rax, [rbx + 4 * rcx + 16] */
  lemma KnownAddress()
    ensures Decode([0x48, 0x8D, 0x44, 0x8B, 0x10]) == Ok(Lea(0, BasedScaled(3, 1, 2, 16)), [])
  {
    assert [0x48, 0x8D, 0x44, 0x8B, 0x10][1..] == [0x8D, 0x44, 0x8B, 0x10];
    assert [0x8D, 0x44, 0x8B, 0x10][1..] == [0x44, 0x8B, 0x10];
    assert [0x44, 0x8B, 0x10][1..] == [0x8B, 0x10];
    assert [0x8B, 0x10][1..] == [0x10];
  }

  /** add rax, rcx; sub rsp, 32 */
  lemma KnownSum()
    ensures Decode([0x48, 0x03, 0xC1]) == Ok(AluRegRm(ADD, 0, Direct(1)), [])
    ensures Decode([0x48, 0x83, 0xEC, 0x20]) == Ok(AluRmImm(SUB, Direct(4), 32), [])
  {
    assert [0x48, 0x03, 0xC1][1..] == [0x03, 0xC1];
    assert [0x03, 0xC1][1..] == [0xC1];
    assert [0x48, 0x83, 0xEC, 0x20][1..] == [0x83, 0xEC, 0x20];
    assert [0x83, 0xEC, 0x20][1..] == [0xEC, 0x20];
    assert [0xEC, 0x20][1..] == [0x20];
  }

  /** cmp r8, r9; test rax, rax */
  lemma KnownTest()
    ensures Decode([0x4D, 0x3B, 0xC1]) == Ok(AluRegRm(CMP, 8, Direct(9)), [])
    ensures Decode([0x48, 0x85, 0xC0]) == Ok(TestRmReg(Direct(0), 0), [])
  {
    assert [0x4D, 0x3B, 0xC1][1..] == [0x3B, 0xC1];
    assert [0x3B, 0xC1][1..] == [0xC1];
    assert [0x48, 0x85, 0xC0][1..] == [0x85, 0xC0];
    assert [0x85, 0xC0][1..] == [0xC0];
  }

  /** imul rax, rbx */
  lemma KnownProduct()
    ensures Decode([0x48, 0x0F, 0xAF, 0xC3]) == Ok(ImulRegRm(0, Direct(3)), [])
  {
    assert [0x48, 0x0F, 0xAF, 0xC3][1..] == [0x0F, 0xAF, 0xC3];
    assert [0x0F, 0xAF, 0xC3][1..] == [0xAF, 0xC3];
    assert [0xAF, 0xC3][1..] == [0xC3];
  }

  /** movsd xmm1, [rax]; addsd xmm2, xmm3 */
  lemma KnownDouble()
    ensures Decode([0xF2, 0x0F, 0x10, 0x08]) == Ok(MovsdRegRm(1, Based(0, 0)), [])
    ensures Decode([0xF2, 0x0F, 0x58, 0xD3]) == Ok(Sse(ADDSD, 2, Direct(3)), [])
  {
    assert [0xF2, 0x0F, 0x10, 0x08][1..] == [0x0F, 0x10, 0x08];
    assert [0x0F, 0x10, 0x08][1..] == [0x10, 0x08];
    assert [0x10, 0x08][1..] == [0x08];
    assert [0xF2, 0x0F, 0x58, 0xD3][1..] == [0x0F, 0x58, 0xD3];
    assert [0x0F, 0x58, 0xD3][1..] == [0x58, 0xD3];
    assert [0x58, 0xD3][1..] == [0xD3];
  }

  /** divsd xmm0, xmm9 */
  lemma KnownPrefixed()
    ensures Decode([0xF2, 0x41, 0x0F, 0x5E, 0xC1]) == Ok(Sse(DIVSD, 0, Direct(9)), [])
  {
    assert [0xF2, 0x41, 0x0F, 0x5E, 0xC1][1..] == [0x41, 0x0F, 0x5E, 0xC1];
    assert [0x41, 0x0F, 0x5E, 0xC1][1..] == [0x0F, 0x5E, 0xC1];
    assert [0x0F, 0x5E, 0xC1][1..] == [0x5E, 0xC1];
    assert [0x5E, 0xC1][1..] == [0xC1];
  }
}
