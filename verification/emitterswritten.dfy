/** The emitters as written. Their prefix leaves out the operand's own bits (emit_oper_rex); the 32-bit test never
    succeeds, so that every immediate takes the wide form; and two helpers set the wrong prefix bit. */
module EmittersAsWritten {
  import opened Words
  import opened X64
  import opened Encoding
  import opened Operands
  import opened Assembling
  import opened Emitters

  // ----- the bytes

  /** What the address builders lay out. */
  function EncodingOf(a: Address): (r: seq<Byte>)
    ensures |r| > 0 && r[0] % 0x40 < 8
  {
    match a
    case Displaced(base, disp) =>
      DescribesLowAddress(base, base % 8, disp);
      AddressBytes(base, disp)
    case Indexed(index, scale, disp) =>
      EmptyField(0, RSP);
      [ModRm(0, RSP)] + ([SibByte(scale % 4, index, RBP)] + Bytes32(disp))
  }

  function RegisterEncoding(reg: Reg): (r: seq<Byte>)
    ensures |r| > 0 && r[0] % 0x40 < 8
  {
    EmptyField(3, reg % 8);
    [ModRm(3, reg % 8)]
  }

  /** emit_oper_rex, an opcode and emit_oper. */
  function WithOperand(w: bool, op: Byte, reg: Reg, encoding: seq<Byte>): seq<Byte>
    requires |encoding| > 0 && encoding[0] % 0x40 < 8
  {
    Prefix(Rex(w, High(reg), false, false)) + [op] + OperBytes(reg % 8, encoding)
  }

  /** emit_oper_rex, an escaped opcode and emit_oper. */
  function WithEscapedOperand(op: Byte, reg: Reg, encoding: seq<Byte>): seq<Byte>
    requires |encoding| > 0 && encoding[0] % 0x40 < 8
  {
    EscapeFront(false, Rex(true, High(reg), false, false), op) + OperBytes(reg % 8, encoding)
  }

  /** asm_movq_ri, where is32 fails. */
  function LoadWide(dst: Reg, imm: int): seq<Byte> {
    Prefix(Rex(true, false, false, High(dst))) + [0xB8 + dst % 8] + Bytes64(imm)
  }

  /** The prefix bits of a floating-point load or store. set_sib marks a high index register in REX.W. */
  function MovsdRex(reg: Reg, a: Address): Rex {
    match a
    case Displaced(base, _) => Rex(false, High(reg), false, High(base))
    case Indexed(index, _, _) => Rex(High(index), High(reg), false, false)
  }

  /** The prefix bits of a floating-point operation. asm_addsd_rr passes its registers in the wrong order. */
  function SseRex(op: SseOp, dst: Reg, src: Reg): Rex {
    if op == ADDSD then Rex(false, High(src), false, High(dst)) else Rex(false, High(dst), false, High(src))
  }

  function SseOpcode(op: SseOp): Byte {
    match op
    case ADDSD => 0x58 case MULSD => 0x59 case SUBSD => 0x5C case DIVSD => 0x5E
  }

  function Move(dst: Reg, src: Reg): seq<Byte> {
    WithOperand(true, 0x89, src, RegisterEncoding(dst))
  }

  function Push(reg: Reg): seq<Byte> {
    Prefix(Rex(false, false, false, High(reg))) + [0x50 + reg % 8]
  }

  function Pop(reg: Reg): seq<Byte> {
    Prefix(Rex(false, false, false, High(reg))) + [0x58 + reg % 8]
  }

  function ArithWide(op: AluOp, dst: Reg, imm: int): seq<Byte> {
    LoadWide(TMP, imm) + WithOperand(true, 8 * Digit(op) + 3, dst, RegisterEncoding(TMP))
  }

  /** asm_enter_frame, with the frame and stack pointers. */
  function Enter(bp: Reg, sp: Reg, size: int): seq<Byte> {
    Push(bp) + Move(bp, sp) + if size == 0 then [] else ArithWide(SUB, sp, size)
  }

  /** The bytes of a call. Where the source tests an immediate with is32 (see Encoding.Is32AsWrittenNeverHolds)
      the other branch is taken. */
  function BytesWritten(call: Call): seq<Byte> {
    match call
    case MovqRR(dst, src) => Move(dst, src)
    case MovqRI(dst, imm) => LoadWide(dst, imm)
    case MovqRA(dst, a) => WithOperand(true, 0x8B, dst, EncodingOf(a))
    case MovqAR(a, src) => WithOperand(true, 0x89, src, EncodingOf(a))
    case MovqAI(a, imm) => LoadWide(TMP, imm) + WithOperand(true, 0x89, TMP, EncodingOf(a))
    case Leaq(dst, a) => WithOperand(true, 0x8D, dst, EncodingOf(a))
    case ArithRR(op, dst, src) => WithOperand(true, 8 * Digit(op) + 3, dst, RegisterEncoding(src))
    case ArithRI(op, dst, imm) => ArithWide(op, dst, imm)
    case SumRA(op, dst, a) => WithOperand(true, 8 * Digit(op) + 3, dst, EncodingOf(a))
    case SumAR(op, a, src) => WithOperand(true, 8 * Digit(op) + 1, src, EncodingOf(a))
    case SumAI(op, a, imm) => LoadWide(TMP, imm) + WithOperand(true, 8 * Digit(op) + 1, TMP, EncodingOf(a))
    case TestqRR(r1, r2) => WithOperand(true, 0x85, r1, RegisterEncoding(r2))
    case MulqRR(dst, src) => WithEscapedOperand(0xAF, dst, RegisterEncoding(src))
    case MulqRI(dst, imm) => LoadWide(TMP, imm) + WithEscapedOperand(0xAF, dst, RegisterEncoding(TMP))
    case PushR(src) => Push(src)
    case PopR(dst) => Pop(dst)
    case PushI(imm) => if Is8(imm) then [0x6A] + [imm % 0x100] else LoadWide(TMP, imm) + Push(TMP)
    case PushA(a) => WithOperand(false, 0xFF, 6, EncodingOf(a))
    case PopA(a) => WithOperand(false, 0x8F, 0, EncodingOf(a))
    case JmpR(dst) => WithOperand(false, 0xFF, 4, RegisterEncoding(dst))
    case JmpA(a) => WithOperand(false, 0xFF, 4, EncodingOf(a))
    case CallR(dst) => WithOperand(false, 0xFF, 2, RegisterEncoding(dst))
    case RetInsn => [0xC3]
    case EnterFrame(size) => Enter(RBP, RSP, size)
    case LeaveFrame => Move(RSP, RBP) + Pop(RBP)
    case MovsdRA(dst, a) => EscapeFront(true, MovsdRex(dst, a), 0x10) + OperBytes(dst % 8, EncodingOf(a))
    case MovsdAR(a, src) => EscapeFront(true, MovsdRex(src, a), 0x11) + OperBytes(src % 8, EncodingOf(a))
    case SseRR(op, dst, src) =>
      EscapeFront(true, SseRex(op, dst, src), SseOpcode(op)) + OperBytes(dst % 8, RegisterEncoding(src))
  }

  // ----- what they say

  function Low(reg: Reg): Reg {
    reg % 8
  }

  /** The operand an encoding describes when the prefix has none of its bits. */
  function LowRm(a: Address): (rm: Rm)
    ensures !rm.Direct?
  {
    match a
    case Displaced(base, disp) => Based(Low(base), Wrap32(disp))
    case Indexed(index, scale, disp) => ScaledRm(Low(index), scale % 4, disp)
  }

  /** The operand of a floating-point load or store: a high base register is marked, a high index is not. */
  function MovsdRm(a: Address): Rm {
    if a.Displaced? then RmOf(a) else LowRm(a)
  }

  const LOW_TMP: Reg := 3

  function Entered(bp: Reg, sp: Reg, size: int): seq<Insn> {
    [PushReg(bp), MovRmReg(Direct(Low(bp)), sp)] +
    if size == 0 then [] else [MovRegImm64(TMP, size), AluRegRm(SUB, sp, Direct(LOW_TMP))]
  }

  /** The instructions the bytes decode to. */
  function Written(call: Call): seq<Insn> {
    match call
    case MovqRR(dst, src) => [MovRmReg(Direct(Low(dst)), src)]
    case MovqRI(dst, imm) => [MovRegImm64(dst, imm)]
    case MovqRA(dst, a) => [MovRegRm(dst, LowRm(a))]
    case MovqAR(a, src) => [MovRmReg(LowRm(a), src)]
    case MovqAI(a, imm) => [MovRegImm64(TMP, imm), MovRmReg(LowRm(a), TMP)]
    case Leaq(dst, a) => [Lea(dst, LowRm(a))]
    case ArithRR(op, dst, src) => [AluRegRm(op, dst, Direct(Low(src)))]
    case ArithRI(op, dst, imm) => [MovRegImm64(TMP, imm), AluRegRm(op, dst, Direct(LOW_TMP))]
    case SumRA(op, dst, a) => [AluRegRm(op, dst, LowRm(a))]
    case SumAR(op, a, src) => [AluRmReg(op, LowRm(a), src)]
    case SumAI(op, a, imm) => [MovRegImm64(TMP, imm), AluRmReg(op, LowRm(a), TMP)]
    case TestqRR(r1, r2) => [TestRmReg(Direct(Low(r2)), r1)]
    case MulqRR(dst, src) => [ImulRegRm(dst, Direct(Low(src)))]
    case MulqRI(dst, imm) => [MovRegImm64(TMP, imm), ImulRegRm(dst, Direct(LOW_TMP))]
    case PushR(src) => [PushReg(src)]
    case PopR(dst) => [PopReg(dst)]
    case PushI(imm) => if Is8(imm) then [PushImm(imm)] else [MovRegImm64(TMP, imm), PushReg(TMP)]
    case PushA(a) => [PushRm(LowRm(a))]
    case PopA(a) => [PopRm(LowRm(a))]
    case JmpR(dst) => [JmpRm(Direct(Low(dst)))]
    case JmpA(a) => [JmpRm(LowRm(a))]
    case CallR(dst) => [CallRm(Direct(Low(dst)))]
    case RetInsn => [Ret]
    case EnterFrame(size) => Entered(RBP, RSP, size)
    case LeaveFrame => [MovRmReg(Direct(Low(RSP)), RBP), PopReg(RBP)]
    case MovsdRA(dst, a) => [MovsdRegRm(dst, MovsdRm(a))]
    case MovsdAR(a, src) => [MovsdRmReg(MovsdRm(a), src)]
    case SseRR(op, dst, src) =>
      if op == ADDSD then [Sse(op, Extend(dst % 8, High(src)), Direct(Extend(src % 8, High(dst))))]
      else [Sse(op, dst, Direct(src))]
  }

  // ----- one instruction each

  /** Everything the bytes say. */
  ghost function Readings(bytes: seq<Byte>): iset<seq<Insn>> {
    iset insns: seq<Insn> | Says(bytes, insns)
  }

  lemma SaysBoth(a: seq<Byte>, b: seq<Byte>, first: seq<Insn>, second: seq<Insn>)
    requires first in Readings(a) && second in Readings(b)
    ensures first + second in Readings(a + b)
  {
    ReadingBoth(Decode, a, b, first, second);
  }

  lemma SaysOne(bytes: seq<Byte>, insn: Insn)
    requires Encodes(bytes, insn)
    ensures [insn] in Readings(bytes)
  {
    ReadingOne(Decode, bytes, insn);
  }

  lemma SaysTwo(a: seq<Byte>, b: seq<Byte>, first: Insn, second: Insn)
    requires Encodes(a, first) && Encodes(b, second)
    ensures [first, second] in Readings(a + b)
  {
    SaysOne(a, first);
    SaysOne(b, second);
    SaysBoth(a, b, [first], [second]);
    assert [first] + [second] == [first, second];
  }

  lemma DescribesLow(a: Address)
    ensures Describes(REX_NONE, EncodingOf(a), LowRm(a))
  {
    match a {
      case Displaced(base, disp) => DescribesLowAddress(base, Low(base), disp);
      case Indexed(index, scale, disp) =>
        DescribesScaled(Low(index), scale % 4, disp);
        assert SibByte(scale % 4, index, RBP) == SibByte(scale % 4, Low(index), RBP)
            by { assert Low(index) % 8 == index % 8; }
    }
  }

  lemma DescribesLowRegister(reg: Reg)
    ensures Describes(REX_NONE, RegisterEncoding(reg), Direct(Low(reg)))
  {
    DescribesDirect(Low(reg));
    assert Low(reg) % 8 == reg % 8;
  }

  /** An operand whose own prefix bits are missing is read as if it had none. */
  lemma OperandSays(w: bool, op: Byte, reg: Reg, encoding: seq<Byte>, low: Rm, insn: Insn)
    requires Describes(REX_NONE, encoding, low) && PlainOpcode(op)
    requires WithRm(op, Rex(w, High(reg), false, false), reg % 8, low) == Ok(insn, [])
    ensures Encodes(WithOperand(w, op, reg, encoding), insn)
  {
    LayoutRm(Rex(w, High(reg), false, false), op, reg % 8, encoding, REX_NONE, low, insn);
  }

  lemma EscapedOperandSays(reg: Reg, encoding: seq<Byte>, low: Rm)
    requires Describes(REX_NONE, encoding, low)
    ensures Encodes(WithEscapedOperand(0xAF, reg, encoding), ImulRegRm(reg, low))
  {
    ExtendLow(reg);
    LayoutEscape(false, Rex(true, High(reg), false, false), 0xAF, reg % 8, encoding, REX_NONE, low,
        ImulRegRm(reg, low));
  }

  lemma PushSays(reg: Reg)
    ensures Encodes(Push(reg), PushReg(reg))
  {
    ExtendLow(reg);
    LayoutOpcode(Rex(false, false, false, High(reg)), 0x50 + reg % 8, PushReg(reg));
  }

  lemma PopSays(reg: Reg)
    ensures Encodes(Pop(reg), PopReg(reg))
  {
    ExtendLow(reg);
    LayoutOpcode(Rex(false, false, false, High(reg)), 0x58 + reg % 8, PopReg(reg));
  }

  // ----- all calls

  lemma RegisterCallSays(call: Call)
    requires call.MovqRR? || call.ArithRR? || call.TestqRR? || call.MulqRR?
    ensures Written(call) in Readings(BytesWritten(call))
  {
    match call {
      case MovqRR(dst, src) => MoveSays(dst, src);
      case ArithRR(op, dst, src) => ArithSays(op, dst, src);
      case TestqRR(r1, r2) =>
        DescribesLowRegister(r2);
        ExtendLow(r1);
        OperandSays(true, 0x85, r1, RegisterEncoding(r2), Direct(Low(r2)), Written(call)[0]);
      case MulqRR(dst, src) =>
        DescribesLowRegister(src);
        EscapedOperandSays(dst, RegisterEncoding(src), Direct(Low(src)));
    }
    SaysOne(BytesWritten(call), Written(call)[0]);
  }

  lemma ArithSays(op: AluOp, dst: Reg, src: Reg)
    ensures Encodes(WithOperand(true, 8 * Digit(op) + 3, dst, RegisterEncoding(src)),
            AluRegRm(op, dst, Direct(Low(src))))
  {
    DescribesLowRegister(src);
    var insn := AluRegRm(op, dst, Direct(Low(src)));
    AluWithReg(op, dst, REX_NONE, Direct(Low(src)));
    OperandSays(true, 8 * Digit(op) + 3, dst, RegisterEncoding(src), Direct(Low(src)), insn);
  }

  lemma JumpCallSays(call: Call)
    requires call.JmpR? || call.CallR?
    ensures Written(call) in Readings(BytesWritten(call))
  {
    DescribesLowRegister(call.dst);
    var field: Reg := if call.JmpR? then 4 else 2;
    OperandSays(false, 0xFF, field, RegisterEncoding(call.dst), Direct(Low(call.dst)), Written(call)[0]);
    SaysOne(BytesWritten(call), Written(call)[0]);
  }

  lemma AddressMoveSays(call: Call)
    requires call.MovqRA? || call.MovqAR? || call.Leaq?
    ensures Written(call) in Readings(BytesWritten(call))
  {
    DescribesLow(call.address);
    var encoding, low, insn := EncodingOf(call.address), LowRm(call.address), Written(call)[0];
    match call {
      case MovqRA(dst, _) => ExtendLow(dst); OperandSays(true, 0x8B, dst, encoding, low, insn);
      case MovqAR(_, src) => ExtendLow(src); OperandSays(true, 0x89, src, encoding, low, insn);
      case Leaq(dst, _) => ExtendLow(dst); OperandSays(true, 0x8D, dst, encoding, low, insn);
    }
    SaysOne(BytesWritten(call), insn);
  }

  lemma AddressSumSays(call: Call)
    requires call.SumRA? || call.SumAR?
    ensures Written(call) in Readings(BytesWritten(call))
  {
    DescribesLow(call.address);
    var encoding, low := EncodingOf(call.address), LowRm(call.address);
    match call {
      case SumRA(op, dst, _) =>
        AluWithReg(op, dst, REX_NONE, low);
        OperandSays(true, 8 * Digit(op) + 3, dst, encoding, low, AluRegRm(op, dst, low));
      case SumAR(op, _, src) =>
        AluWithReg(op, src, REX_NONE, low);
        OperandSays(true, 8 * Digit(op) + 1, src, encoding, low, AluRmReg(op, low, src));
    }
    SaysOne(BytesWritten(call), Written(call)[0]);
  }

  lemma AddressJumpSays(call: Call)
    requires call.PushA? || call.PopA? || call.JmpA?
    ensures Written(call) in Readings(BytesWritten(call))
  {
    DescribesLow(call.address);
    var encoding, low, insn := EncodingOf(call.address), LowRm(call.address), Written(call)[0];
    match call {
      case PushA(_) => OperandSays(false, 0xFF, 6, encoding, low, insn);
      case PopA(_) => OperandSays(false, 0x8F, 0, encoding, low, insn);
      case JmpA(_) => OperandSays(false, 0xFF, 4, encoding, low, insn);
    }
    SaysOne(BytesWritten(call), insn);
  }

  /** The wide form: load the scratch register, then use it. */
  lemma LoadThen(imm: Imm64, bytes: seq<Byte>, insn: Insn)
    requires Encodes(bytes, insn)
    ensures [MovRegImm64(TMP, imm), insn] in Readings(LoadWide(TMP, imm) + bytes)
  {
    LayoutImm64(TMP, imm);
    SaysTwo(LoadWide(TMP, imm), bytes, MovRegImm64(TMP, imm), insn);
  }

  lemma StoreImmediateSays(a: Address, imm: Imm64)
    ensures Written(MovqAI(a, imm)) in Readings(BytesWritten(MovqAI(a, imm)))
  {
    DescribesLow(a);
    var bytes, insn := WithOperand(true, 0x89, TMP, EncodingOf(a)), MovRmReg(LowRm(a), TMP);
    OperandSays(true, 0x89, TMP, EncodingOf(a), LowRm(a), insn);
    LoadThen(imm, bytes, insn);
    assert BytesWritten(MovqAI(a, imm)) == LoadWide(TMP, imm) + bytes;
    assert Written(MovqAI(a, imm)) == [MovRegImm64(TMP, imm), insn];
  }

  lemma SumImmediateSays(op: Sum, a: Address, imm: Imm64)
    ensures Written(SumAI(op, a, imm)) in Readings(BytesWritten(SumAI(op, a, imm)))
  {
    DescribesLow(a);
    AluWithReg(op, TMP, REX_NONE, LowRm(a));
    var bytes, insn := WithOperand(true, 8 * Digit(op) + 1, TMP, EncodingOf(a)), AluRmReg(op, LowRm(a), TMP);
    OperandSays(true, 8 * Digit(op) + 1, TMP, EncodingOf(a), LowRm(a), insn);
    LoadThen(imm, bytes, insn);
    assert BytesWritten(SumAI(op, a, imm)) == LoadWide(TMP, imm) + bytes;
    assert Written(SumAI(op, a, imm)) == [MovRegImm64(TMP, imm), insn];
  }

  lemma MulImmediateSays(dst: Reg, imm: Imm64)
    ensures Written(MulqRI(dst, imm)) in Readings(BytesWritten(MulqRI(dst, imm)))
  {
    DescribesLowRegister(TMP);
    EscapedOperandSays(dst, RegisterEncoding(TMP), Direct(LOW_TMP));
    var bytes, insn := WithEscapedOperand(0xAF, dst, RegisterEncoding(TMP)), ImulRegRm(dst, Direct(LOW_TMP));
    LoadThen(imm, bytes, insn);
    assert BytesWritten(MulqRI(dst, imm)) == LoadWide(TMP, imm) + bytes;
    assert Written(MulqRI(dst, imm)) == [MovRegImm64(TMP, imm), insn];
  }

  lemma PushImmediateSays(imm: Imm64)
    ensures Written(PushI(imm)) in Readings(BytesWritten(PushI(imm)))
  {
    if Is8(imm) {
      LayoutPushImm(imm);
      SaysOne([0x6A] + [imm % 0x100], PushImm(imm));
    } else {
      PushSays(TMP);
      LoadThen(imm, Push(TMP), PushReg(TMP));
      assert BytesWritten(PushI(imm)) == LoadWide(TMP, imm) + Push(TMP);
      assert Written(PushI(imm)) == [MovRegImm64(TMP, imm), PushReg(TMP)];
    }
  }

  lemma LoadImmediateSays(dst: Reg, imm: Imm64)
    ensures Written(MovqRI(dst, imm)) in Readings(BytesWritten(MovqRI(dst, imm)))
  {
    LayoutImm64(dst, imm);
    SaysOne(LoadWide(dst, imm), MovRegImm64(dst, imm));
  }

  /** The scratch register as operand loses its high bit: RBX takes its place. */
  lemma WideArithSays(op: AluOp, dst: Reg, imm: Imm64)
    ensures [MovRegImm64(TMP, imm), AluRegRm(op, dst, Direct(LOW_TMP))] in Readings(ArithWide(op, dst, imm))
  {
    ArithSays(op, dst, TMP);
    LoadThen(imm, WithOperand(true, 8 * Digit(op) + 3, dst, RegisterEncoding(TMP)), AluRegRm(op, dst, Direct(LOW_TMP)));
  }

  lemma MoveSays(dst: Reg, src: Reg)
    ensures Encodes(Move(dst, src), MovRmReg(Direct(Low(dst)), src))
  {
    DescribesLowRegister(dst);
    ExtendLow(src);
    OperandSays(true, 0x89, src, RegisterEncoding(dst), Direct(Low(dst)), MovRmReg(Direct(Low(dst)), src));
  }

  lemma EnterSays(bp: Reg, sp: Reg, size: Imm64)
    ensures Entered(bp, sp, size) in Readings(Enter(bp, sp, size))
  {
    var front, saved := Push(bp) + Move(bp, sp), [PushReg(bp), MovRmReg(Direct(Low(bp)), sp)];
    PushSays(bp);
    MoveSays(bp, sp);
    SaysTwo(Push(bp), Move(bp, sp), saved[0], saved[1]);
    if size == 0 {
      assert front + [] == front && saved + [] == saved;
    } else {
      WideArithSays(SUB, sp, size);
      SaysBoth(front, ArithWide(SUB, sp, size), saved, [MovRegImm64(TMP, size), AluRegRm(SUB, sp, Direct(LOW_TMP))]);
    }
  }

  lemma LeaveSays(bp: Reg, sp: Reg)
    ensures [MovRmReg(Direct(Low(sp)), bp), PopReg(bp)] in Readings(Move(sp, bp) + Pop(bp))
  {
    MoveSays(sp, bp);
    PopSays(bp);
    SaysTwo(Move(sp, bp), Pop(bp), MovRmReg(Direct(Low(sp)), bp), PopReg(bp));
  }

  lemma OpcodeCallSays(call: Call)
    requires call.PushR? || call.PopR? || call.RetInsn?
    ensures Written(call) in Readings(BytesWritten(call))
  {
    match call {
      case PushR(src) => PushSays(src);
      case PopR(dst) => PopSays(dst);
      case RetInsn =>
        LayoutOpcode(REX_NONE, 0xC3, Ret);
        assert Prefix(REX_NONE) + [0xC3] == [0xC3];
    }
    SaysOne(BytesWritten(call), Written(call)[0]);
  }

  lemma MovsdSays(op: Byte, reg: Reg, a: Address, insn: Insn)
    requires WithEscape(true, op, MovsdRex(reg, a), reg, MovsdRm(a)) == Ok(insn, [])
    ensures Encodes(EscapeFront(true, MovsdRex(reg, a), op) + OperBytes(reg % 8, EncodingOf(a)), insn)
  {
    ExtendLow(reg);
    match a {
      case Displaced(base, disp) =>
        var oper := Rex(false, false, false, High(base));
        DescribesAddress(base, disp, oper, EncodingOf(a));
        LayoutEscape(true, MovsdRex(reg, a), op, reg % 8, EncodingOf(a), oper, MovsdRm(a), insn);
      case Indexed(_, _, _) =>
        DescribesLow(a);
        LayoutEscape(true, MovsdRex(reg, a), op, reg % 8, EncodingOf(a), REX_NONE, MovsdRm(a), insn);
    }
  }

  lemma MovsdCallSays(call: Call)
    requires call.MovsdRA? || call.MovsdAR?
    ensures Written(call) in Readings(BytesWritten(call))
  {
    match call {
      case MovsdRA(dst, a) => MovsdSays(0x10, dst, a, MovsdRegRm(dst, MovsdRm(a)));
      case MovsdAR(a, src) => MovsdSays(0x11, src, a, MovsdRmReg(MovsdRm(a), src));
    }
    SaysOne(BytesWritten(call), Written(call)[0]);
  }

  lemma SseSays(op: SseOp, dst: Reg, src: Reg)
    ensures Written(SseRR(op, dst, src)) in Readings(BytesWritten(SseRR(op, dst, src)))
  {
    var rex := SseRex(op, dst, src);
    var first, second := Extend(dst % 8, rex.r), Extend(src % 8, rex.b);
    ExchangedBits(dst, src);
    ExtendLow(dst);
    ExtendLow(src);
    assert second % 8 == src % 8 && High(second) == rex.b;
    DescribesDirect(second);
    LayoutEscape(true, rex, SseOpcode(op), dst % 8, RegisterEncoding(src), Rex(false, false, false, rex.b),
        Direct(second),
                 Sse(op, first, Direct(second)));
    SaysOne(BytesWritten(SseRR(op, dst, src)), Sse(op, first, Direct(second)));
  }

  lemma ExchangedBits(dst: Reg, src: Reg)
    ensures var first, second := Extend(dst % 8, High(src)), Extend(src % 8, High(dst));
            && second % 8 == src % 8 && High(second) == High(dst)
            && (first == dst && second == src <==> (dst < 8 <==> src < 8))
  {
  }

  predicate TakesImmediate(call: Call) {
    call.MovqRI? || call.MovqAI? || call.ArithRI? || call.SumAI? || call.MulqRI? || call.PushI?
  }

  lemma ImmediateCallSays(call: Call)
    requires TakesImmediate(call)
    ensures Written(call) in Readings(BytesWritten(call))
  {
    match call {
      case MovqRI(dst, imm) => LoadImmediateSays(dst, imm);
      case MovqAI(a, imm) => StoreImmediateSays(a, imm);
      case ArithRI(op, dst, imm) => WideArithSays(op, dst, imm);
      case SumAI(op, a, imm) => SumImmediateSays(op, a, imm);
      case MulqRI(dst, imm) => MulImmediateSays(dst, imm);
      case PushI(imm) => PushImmediateSays(imm);
    }
  }

  predicate TakesAddress(call: Call) {
    call.MovqRA? || call.MovqAR? || call.Leaq? || call.SumRA? || call.SumAR? || call.PushA? || call.PopA? || call.JmpA?
  }

  lemma AddressCallSays(call: Call)
    requires TakesAddress(call)
    ensures Written(call) in Readings(BytesWritten(call))
  {
    if call.SumRA? || call.SumAR? {
      AddressSumSays(call);
    } else if call.PushA? || call.PopA? || call.JmpA? {
      AddressJumpSays(call);
    } else {
      AddressMoveSays(call);
    }
  }

  lemma OtherCallSays(call: Call)
    requires !TakesImmediate(call) && !TakesAddress(call)
    ensures Written(call) in Readings(BytesWritten(call))
  {
    if call.PushR? || call.PopR? || call.RetInsn? {
      OpcodeCallSays(call);
    } else if call.EnterFrame? {
      EnterSays(RBP, RSP, call.size);
    } else if call.LeaveFrame? {
      LeaveSays(RBP, RSP);
    } else if call.MovsdRA? || call.MovsdAR? {
      MovsdCallSays(call);
    } else if call.SseRR? {
      SseSays(call.sse, call.dst, call.src);
    } else if call.JmpR? || call.CallR? {
      JumpCallSays(call);
    } else {
      RegisterCallSays(call);
    }
  }

  /** Whatever follows, the bytes of a call decode to the instructions Written says. */
  lemma BytesSayWritten(call: Call)
    ensures Written(call) in Readings(BytesWritten(call))
  {
    if TakesImmediate(call) {
      ImmediateCallSays(call);
    } else if TakesAddress(call) {
      AddressCallSays(call);
    } else {
      OtherCallSays(call);
    }
  }

  // ----- when they are right

  /** A low register in the place where a prefix bit is lost. */
  predicate LowAddress(a: Address) {
    if a.Displaced? then a.base < 8 else a.index < 8
  }

  lemma LowAddressSame(a: Address)
    ensures LowRm(a) == RmOf(a) <==> LowAddress(a)
  {
  }

  /** The calls that come out right as written. */
  predicate RightAsWritten(call: Call) {
    match call
    case MovqRR(dst, _) => dst < 8
    case ArithRR(_, _, src) => src < 8
    case TestqRR(_, r2) => r2 < 8
    case MulqRR(_, src) => src < 8
    case JmpR(dst) => dst < 8
    case CallR(dst) => dst < 8
    case MovqRA(_, a) => LowAddress(a)
    case MovqAR(a, _) => LowAddress(a)
    case MovqAI(a, _) => LowAddress(a)
    case Leaq(_, a) => LowAddress(a)
    case SumRA(_, _, a) => LowAddress(a)
    case SumAR(_, a, _) => LowAddress(a)
    case SumAI(_, a, _) => LowAddress(a)
    case PushA(a) => LowAddress(a)
    case PopA(a) => LowAddress(a)
    case JmpA(a) => LowAddress(a)
    case MovsdRA(_, a) => a.Displaced? || a.index < 8
    case MovsdAR(a, _) => a.Displaced? || a.index < 8
    case ArithRI(_, _, _) => false
    case MulqRI(_, _) => false
    case EnterFrame(size) => size == 0
    case SseRR(op, dst, src) => op == ADDSD ==> (dst < 8 <==> src < 8)
    case MovqRI(_, _) => true
    case PushR(_) => true
    case PopR(_) => true
    case PushI(_) => true
    case RetInsn => true
    case LeaveFrame => true
  }

  /** insns does what the call asks for, in the short form or the wide one. */
  ghost predicate Does(call: Call, insns: seq<Insn>) {
    insns == Form(call, false) || insns == Form(call, true)
  }

  lemma WrittenEnters(size: Imm64)
    ensures Does(EnterFrame(size), Written(EnterFrame(size))) <==> size == 0
  {
    if size != 0 {
      assert Written(EnterFrame(size))[3] == AluRegRm(SUB, RSP, Direct(LOW_TMP));
      assert Form(EnterFrame(size), true)[3] == AluRegRm(SUB, RSP, Direct(TMP));
      assert |Form(EnterFrame(size), false)| == 3;
    }
  }

  lemma WrittenDoesImmediate(call: Call)
    requires TakesImmediate(call)
    ensures Does(call, Written(call)) <==> RightAsWritten(call)
  {
    match call {
      case MovqAI(a, _) => LowAddressSame(a);
      case SumAI(_, a, _) => LowAddressSame(a);
      case _ =>
    }
  }

  lemma WrittenDoesAddress(call: Call)
    requires TakesAddress(call)
    ensures Does(call, Written(call)) <==> RightAsWritten(call)
  {
    LowAddressSame(call.address);
  }

  lemma WrittenDoesMovsd(call: Call)
    requires call.MovsdRA? || call.MovsdAR?
    ensures Does(call, Written(call)) <==> RightAsWritten(call)
  {
    LowAddressSame(call.address);
  }

  lemma WrittenDoesOther(call: Call)
    requires !TakesImmediate(call) && !TakesAddress(call) && !call.MovsdRA? && !call.MovsdAR?
    ensures Does(call, Written(call)) <==> RightAsWritten(call)
  {
    match call {
      case SseRR(_, dst, src) => ExchangedBits(dst, src);
      case EnterFrame(size) => WrittenEnters(size);
      case _ =>
    }
  }

  lemma WrittenDoes(call: Call)
    ensures Does(call, Written(call)) <==> RightAsWritten(call)
  {
    if TakesImmediate(call) {
      WrittenDoesImmediate(call);
    } else if TakesAddress(call) {
      WrittenDoesAddress(call);
    } else if call.MovsdRA? || call.MovsdAR? {
      WrittenDoesMovsd(call);
    } else {
      WrittenDoesOther(call);
    }
  }

  lemma NoLongerReading(decode: seq<Byte> -> Decoded<Insn>, bytes: seq<Byte>, first: seq<Insn>, second: seq<Insn>)
    requires decode([]) == Fail
    requires DecodeMany(decode, bytes, |first|) == Ok(first, [])
    requires DecodeMany(decode, bytes, |second|) == Ok(second, [])
    ensures |first| >= |second|
  {
    if |first| < |second| {
      assert DecodeMany(decode, [], |second| - |first|) == Fail;
      DecodeManySplits(decode, bytes, |first|, |second| - |first|);
      assert false;
    }
  }

  /** Bytes say one thing only. */
  lemma OneReading(bytes: seq<Byte>, first: seq<Insn>, second: seq<Insn>)
    requires first in Readings(bytes) && second in Readings(bytes)
    ensures first == second
  {
    assert DecodeMany(Decode, bytes + [], |first|) == Ok(first, []);
    assert DecodeMany(Decode, bytes + [], |second|) == Ok(second, []);
    NoLongerReading(Decode, bytes + [], first, second);
    NoLongerReading(Decode, bytes + [], second, first);
  }

  /** As written, the bytes of a call decode to instructions that do what it asks for if and only if its registers
      and immediate are among those RightAsWritten lists. */
  lemma CallAsWritten(call: Call)
    ensures (exists insns :: Does(call, insns) && Says(BytesWritten(call), insns)) <==> RightAsWritten(call)
  {
    BytesSayWritten(call);
    WrittenDoes(call);
    assert Says(BytesWritten(call), Written(call));
    if insns :| Does(call, insns) && Says(BytesWritten(call), insns) {
      OneReading(BytesWritten(call), insns, Written(call));
    }
  }

  // ----- runs of calls

  function Concat(parts: seq<seq<Byte>>): seq<Byte> {
    if parts == [] then [] else Concat(parts[..|parts| - 1]) + parts[|parts| - 1]
  }

  lemma {:induction false} ConcatSays(parts: seq<seq<Byte>>, steps: seq<seq<Insn>>)
    requires |parts| == |steps| && forall k :: 0 <= k < |parts| ==> steps[k] in Readings(parts[k])
    ensures Flatten(steps) in Readings(Concat(parts))
  {
    if parts == [] {
      ReadingNothing();
    } else {
      var n := |parts| - 1;
      ConcatSays(parts[..n], steps[..n]);
      SaysBoth(Concat(parts[..n]), parts[n], Flatten(steps[..n]), steps[n]);
    }
  }

  lemma ReadingNothing()
    ensures [] in Readings([])
  {
    forall rest: seq<Byte> {:trigger [] + rest} ensures DecodeMany(Decode, [] + rest, 0) == Ok([], rest) {
      assert [] + rest == rest;
    }
  }

  function PartsWritten(calls: seq<Call>): seq<seq<Byte>> {
    seq(|calls|, k requires 0 <= k < |calls| => BytesWritten(calls[k]))
  }

  function StepsWritten(calls: seq<Call>): seq<seq<Insn>> {
    seq(|calls|, k requires 0 <= k < |calls| => Written(calls[k]))
  }

  ghost predicate AllDo(calls: seq<Call>, steps: seq<seq<Insn>>) {
    |steps| == |calls| && forall k :: 0 <= k < |calls| ==> Does(calls[k], steps[k])
  }

  /** A whole program as written decodes, call by call, to steps that do what the calls ask for exactly if every
      call is one that comes out right. */
  lemma RunAsWritten(calls: seq<Call>)
    ensures Says(Concat(PartsWritten(calls)), Flatten(StepsWritten(calls)))
    ensures AllDo(calls, StepsWritten(calls)) <==> forall k :: 0 <= k < |calls| ==> RightAsWritten(calls[k])
  {
    forall k | 0 <= k < |calls|
      ensures StepsWritten(calls)[k] in Readings(PartsWritten(calls)[k])
      ensures Does(calls[k], StepsWritten(calls)[k]) <==> RightAsWritten(calls[k])
    {
      BytesSayWritten(calls[k]);
      WrittenDoes(calls[k]);
    }
    ConcatSays(PartsWritten(calls), StepsWritten(calls));
  }
}
