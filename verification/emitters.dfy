/** The assembler's calls as data, what each is to emit, and runs of calls. */
module Emitters {
  import opened Words
  import opened X64
  import opened Encoding
  import opened Operands
  import opened Assembling

  type Scale = s: nat | s < 5

  /** What asm_addr_init_r and asm_addr_init_s are given. */
  datatype Address = Displaced(base: Reg, disp: Imm64) | Indexed(index: Reg, scale: Scale, disp: Imm64)

  /** The operand an address stands for; a factor of 16 reads as 1. */
  function RmOf(a: Address): (rm: Rm)
    ensures !rm.Direct?
  {
    match a
    case Displaced(base, disp) => Based(base, Wrap32(disp))
    case Indexed(index, scale, disp) => ScaledRm(index, scale % 4, disp)
  }

  /** The operations that take a register or an immediate, and those of them that take an address. */
  type Arith = op: AluOp | op in {ADD, SUB, AND, CMP} witness ADD
  type Sum = op: AluOp | op in {ADD, SUB} witness ADD

  datatype Call =
    | MovqRR(dst: Reg, src: Reg)
    | MovqRI(dst: Reg, imm: Imm64)
    | MovqRA(dst: Reg, address: Address)
    | MovqAR(address: Address, src: Reg)
    | MovqAI(address: Address, imm: Imm64)
    | Leaq(dst: Reg, address: Address)
    | ArithRR(op: Arith, dst: Reg, src: Reg)
    | ArithRI(op: Arith, dst: Reg, imm: Imm64)
    | SumRA(sum: Sum, dst: Reg, address: Address)
    | SumAR(sum: Sum, address: Address, src: Reg)
    | SumAI(sum: Sum, address: Address, imm: Imm64)
    | TestqRR(dst: Reg, src: Reg)
    | MulqRR(dst: Reg, src: Reg)
    | MulqRI(dst: Reg, imm: Imm64)
    | PushR(src: Reg)
    | PopR(dst: Reg)
    | PushI(imm: Imm64)
    | PushA(address: Address)
    | PopA(address: Address)
    | JmpR(dst: Reg)
    | JmpA(address: Address)
    | CallR(dst: Reg)
    | RetInsn
    | EnterFrame(size: Imm64)
    | LeaveFrame
    | MovsdRA(dst: Reg, address: Address)
    | MovsdAR(address: Address, src: Reg)
    | SseRR(sse: SseOp, dst: Reg, src: Reg)

  /** The value that decides between the short form of a call, with the immediate in the instruction, and the
      wide one, through the scratch register. */
  function Immediate(call: Call): Imm64 {
    match call
    case MovqRI(_, imm) => imm
    case MovqAI(_, imm) => imm
    case ArithRI(_, _, imm) => imm
    case SumAI(_, _, imm) => imm
    case MulqRI(_, imm) => imm
    case PushI(imm) => imm
    case EnterFrame(size) => size
    case _ => 0
  }

  function Form(call: Call, wide: bool): seq<Insn> {
    match call
    case MovqRR(dst, src) => [MovRmReg(Direct(dst), src)]
    case MovqRI(dst, imm) => if wide then [MovRegImm64(dst, imm)] else [MovRmImm(Direct(dst), imm)]
    case MovqRA(dst, a) => [MovRegRm(dst, RmOf(a))]
    case MovqAR(a, src) => [MovRmReg(RmOf(a), src)]
    case MovqAI(a, imm) =>
      if wide then [MovRegImm64(TMP, imm), MovRmReg(RmOf(a), TMP)] else [MovRmImm(RmOf(a), imm)]
    case Leaq(dst, a) => [Lea(dst, RmOf(a))]
    case ArithRR(op, dst, src) => [AluRegRm(op, dst, Direct(src))]
    case ArithRI(op, dst, imm) =>
      if wide then [MovRegImm64(TMP, imm), AluRegRm(op, dst, Direct(TMP))] else [AluRmImm(op, Direct(dst), imm)]
    case SumRA(op, dst, a) => [AluRegRm(op, dst, RmOf(a))]
    case SumAR(op, a, src) => [AluRmReg(op, RmOf(a), src)]
    case SumAI(op, a, imm) =>
      if wide then [MovRegImm64(TMP, imm), AluRmReg(op, RmOf(a), TMP)] else [AluRmImm(op, RmOf(a), imm)]
    case TestqRR(r1, r2) => [TestRmReg(Direct(r2), r1)]
    case MulqRR(dst, src) => [ImulRegRm(dst, Direct(src))]
    case MulqRI(dst, imm) =>
      if wide then [MovRegImm64(TMP, imm), ImulRegRm(dst, Direct(TMP))] else [ImulRegRmImm(dst, Direct(dst), imm)]
    case PushR(src) => [PushReg(src)]
    case PopR(dst) => [PopReg(dst)]
    case PushI(imm) => if wide then [MovRegImm64(TMP, imm), PushReg(TMP)] else [PushImm(imm)]
    case PushA(a) => [PushRm(RmOf(a))]
    case PopA(a) => [PopRm(RmOf(a))]
    case JmpR(dst) => [JmpRm(Direct(dst))]
    case JmpA(a) => [JmpRm(RmOf(a))]
    case CallR(dst) => [CallRm(Direct(dst))]
    case RetInsn => [Ret]
    case EnterFrame(size) =>
      [PushReg(RBP), MovRmReg(Direct(RBP), RSP)] +
      if size == 0 then []
      else if wide then [MovRegImm64(TMP, size), AluRegRm(SUB, RSP, Direct(TMP))]
      else [AluRmImm(SUB, Direct(RSP), size)]
    case LeaveFrame => [MovRmReg(Direct(RSP), RBP), PopReg(RBP)]
    case MovsdRA(dst, a) => [MovsdRegRm(dst, RmOf(a))]
    case MovsdAR(a, src) => [MovsdRmReg(RmOf(a), src)]
    case SseRR(op, dst, src) => [Sse(op, dst, Direct(src))]
  }

  /** The short form if the immediate fits 32 bits. */
  function InsnsOf(call: Call): seq<Insn> {
    Form(call, !Is32(Immediate(call)))
  }

  function AllInsns(calls: seq<Call>): seq<seq<Insn>> {
    seq(|calls|, k requires 0 <= k < |calls| => InsnsOf(calls[k]))
  }

  // ----- making a call

  method AddressOperand(a: Address) returns (oper: Operand)
    ensures fresh(oper) && Describes(oper.rex, oper.encoding, RmOf(a)) && oper.encoding[0] / 64 != 3
  {
    oper := new Operand();
    match a {
      case Displaced(base, disp) => oper.InitAddress(base, disp);
      case Indexed(index, scale, disp) => oper.InitScaled(index, scale, disp);
    }
  }

  method EmitWithAddress(asm: Assembler, call: Call)
    requires call.MovqRA? || call.MovqAR? || call.MovqAI? || call.Leaq? || call.PushA? || call.PopA? || call.JmpA? ||
             call.MovsdRA? || call.MovsdAR?
    modifies asm
    ensures Appends(old(asm.code), asm.code, InsnsOf(call))
  {
    var oper := AddressOperand(call.address);
    match call {
      case MovqRA(dst, a) => asm.MovqRA(dst, oper, RmOf(a));
      case MovqAR(a, src) => asm.MovqAR(oper, src, RmOf(a));
      case MovqAI(a, imm) => asm.MovqAI(oper, imm, RmOf(a));
      case Leaq(dst, a) => asm.Leaq(dst, oper, RmOf(a));
      case PushA(a) => asm.PushA(oper, RmOf(a));
      case PopA(a) => asm.PopA(oper, RmOf(a));
      case JmpA(a) => asm.JmpA(oper, RmOf(a));
      case MovsdRA(dst, a) => asm.MovsdRA(dst, oper, RmOf(a));
      case MovsdAR(a, src) => asm.MovsdAR(oper, src, RmOf(a));
    }
  }

  method EmitSum(asm: Assembler, call: Call)
    requires call.SumRA? || call.SumAR? || call.SumAI?
    modifies asm
    ensures Appends(old(asm.code), asm.code, InsnsOf(call))
  {
    var oper := AddressOperand(call.address);
    match call {
      case SumRA(op, dst, a) =>
        if op == ADD { asm.AddqRA(dst, oper, RmOf(a)); } else { asm.SubqRA(dst, oper, RmOf(a)); }
      case SumAR(op, a, src) =>
        if op == ADD { asm.AddqAR(oper, src, RmOf(a)); } else { asm.SubqAR(oper, src, RmOf(a)); }
      case SumAI(op, a, imm) =>
        if op == ADD { asm.AddqAI(oper, imm, RmOf(a)); } else { asm.SubqAI(oper, imm, RmOf(a)); }
    }
  }

  method EmitArith(asm: Assembler, call: Call)
    requires call.ArithRR? || call.ArithRI?
    modifies asm
    ensures Appends(old(asm.code), asm.code, InsnsOf(call))
  {
    match call {
      case ArithRR(op, dst, src) =>
        match op {
          case ADD => asm.AddqRR(dst, src);
          case SUB => asm.SubqRR(dst, src);
          case AND => asm.AndqRR(dst, src);
          case CMP => asm.CmpqRR(dst, src);
        }
      case ArithRI(op, dst, imm) =>
        match op {
          case ADD => asm.AddqRI(dst, imm);
          case SUB => asm.SubqRI(dst, imm);
          case AND => asm.AndqRI(dst, imm);
          case CMP => asm.CmpqRI(dst, imm);
        }
    }
  }

  method EmitSse(asm: Assembler, op: SseOp, dst: Reg, src: Reg)
    modifies asm
    ensures Appends(old(asm.code), asm.code, [Sse(op, dst, Direct(src))])
  {
    match op {
      case ADDSD => asm.AddsdRR(dst, src);
      case MULSD => asm.MulsdRR(dst, src);
      case SUBSD => asm.SubsdRR(dst, src);
      case DIVSD => asm.DivsdRR(dst, src);
    }
  }

  /** Each call emits bytes that decode to its instructions, whatever precedes and follows them. */
  method Emit(asm: Assembler, call: Call)
    modifies asm
    ensures Appends(old(asm.code), asm.code, InsnsOf(call))
  {
    match call {
      case MovqRR(dst, src) => asm.MovqRR(dst, src);
      case MovqRI(dst, imm) => asm.MovqRI(dst, imm);
      case ArithRR(_, _, _) => EmitArith(asm, call);
      case ArithRI(_, _, _) => EmitArith(asm, call);
      case SumRA(_, _, _) => EmitSum(asm, call);
      case SumAR(_, _, _) => EmitSum(asm, call);
      case SumAI(_, _, _) => EmitSum(asm, call);
      case TestqRR(r1, r2) => asm.TestqRR(r1, r2);
      case MulqRR(dst, src) => asm.MulqRR(dst, src);
      case MulqRI(dst, imm) => asm.MulqRI(dst, imm);
      case PushR(src) => asm.PushR(src);
      case PopR(dst) => asm.PopR(dst);
      case PushI(imm) => asm.PushI(imm);
      case JmpR(dst) => asm.JmpR(dst);
      case CallR(dst) => asm.CallR(dst);
      case RetInsn => asm.RetInsn();
      case EnterFrame(size) => EmitEnter(asm, size);
      case LeaveFrame => asm.LeaveFrame();
      case SseRR(op, dst, src) => EmitSse(asm, op, dst, src);
      case _ => EmitWithAddress(asm, call);
    }
  }

  method EmitEnter(asm: Assembler, size: Imm64)
    modifies asm
    ensures Appends(old(asm.code), asm.code, InsnsOf(EnterFrame(size)))
  {
    asm.EnterFrame(size);
    assert InsnsOf(EnterFrame(size)) == EnterInsns(size);
  }

  /** Any run of calls into an empty buffer: decoding the buffer gives the instructions of the calls in order and
      leaves no byte over. */
  method Assemble(calls: seq<Call>) returns (bytes: seq<Byte>)
    ensures Says(bytes, Flatten(AllInsns(calls)))
    ensures DecodeMany(Decode, bytes, |Flatten(AllInsns(calls))|) == Ok(Flatten(AllInsns(calls)), [])
  {
    var asm := new Assembler();
    ghost var codes := [asm.code];
    for k := 0 to |calls|
      invariant |codes| == k + 1 && codes[0] == [] && codes[k] == asm.code
      invariant forall i :: 0 <= i < k ==> Appends(codes[i], codes[i + 1], AllInsns(calls)[i])
    {
      Emit(asm, calls[k]);
      codes := codes + [asm.code];
    }
    bytes := asm.code;
    RunDecodes(codes, AllInsns(calls));
  }
}
