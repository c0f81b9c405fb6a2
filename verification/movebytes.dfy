/** From a parallel move to bytes: the resolver's code, assembled, decodes to instructions that carry out the
    simultaneous assignment. */
module MoveBytes {
  import opened Words
  import opened X64
  import opened Encoding
  import opened Operands
  import opened Assembling
  import M = Machine
  import V = Moves
  import C = Cycles
  import R = Resolver

  // ----- what the decoded instructions do

  /** The place an operand names: a register of either kind, or a cell of the frame. */
  function RmPlace(rm: Rm, fpu: bool): M.Place {
    match rm
    case Direct(reg) => if fpu then M.FpuPlace(reg) else M.CpuPlace(reg)
    case Based(_, disp) => M.Cell(disp)
    case _ => M.Cell(0)
  }

  /** Registers and cells addressed through the frame pointer. */
  predicate InFrame(rm: Rm) {
    rm.Direct? || (rm.Based? && rm.base == RBP)
  }

  /** Moves within the frame; no other instruction occurs here. */
  predicate IsMove(insn: Insn) {
    match insn
    case MovRegRm(_, rm) => InFrame(rm)
    case MovRmReg(rm, _) => InFrame(rm)
    case MovRmImm(rm, _) => InFrame(rm)
    case MovRegImm64(_, _) => true
    case MovsdRegRm(_, rm) => InFrame(rm)
    case MovsdRmReg(rm, _) => InFrame(rm)
    case _ => false
  }

  /** Cells are addressed through the frame pointer; see FrameStays. */
  ghost function Perform(insn: Insn, s: M.State): M.State {
    match insn
    case MovRegRm(reg, rm) => s[M.CpuPlace(reg) := s[RmPlace(rm, false)]]
    case MovRmReg(rm, reg) => s[RmPlace(rm, false) := s[M.CpuPlace(reg)]]
    case MovRmImm(rm, imm) => s[RmPlace(rm, false) := imm]
    case MovRegImm64(reg, imm) => s[M.CpuPlace(reg) := imm]
    case MovsdRegRm(reg, rm) => s[M.FpuPlace(reg) := s[RmPlace(rm, true)]]
    case MovsdRmReg(rm, reg) => s[RmPlace(rm, true) := s[M.FpuPlace(reg)]]
    case _ => s
  }

  ghost function PerformAll(insns: seq<Insn>, s: M.State): M.State {
    if insns == [] then s else PerformAll(insns[1..], Perform(insns[0], s))
  }

  predicate SetsFramePointer(insn: Insn) {
    match insn
    case MovRegRm(reg, _) => reg == RBP
    case MovRmReg(rm, _) => rm == Direct(RBP)
    case MovRmImm(rm, _) => rm == Direct(RBP)
    case MovRegImm64(reg, _) => reg == RBP
    case _ => false
  }

  predicate UsesFrame(insn: Insn) {
    match insn
    case MovRegRm(_, rm) => rm.Based?
    case MovRmReg(rm, _) => rm.Based?
    case MovRmImm(rm, _) => rm.Based?
    case MovsdRegRm(_, rm) => rm.Based?
    case MovsdRmReg(rm, _) => rm.Based?
    case _ => false
  }

  /** If any instruction sets the frame pointer, none uses it to address a cell. */
  ghost predicate FrameStays(insns: seq<Insn>) {
    forall j, k :: 0 <= j < |insns| && 0 <= k < |insns| && SetsFramePointer(insns[j]) ==> !UsesFrame(insns[k])
  }

  // ----- the instruction for each of the resolver's

  function InsnOf(i: M.Instr): Insn {
    match i
    case MovRegReg(dst, src) => MovRmReg(Direct(dst), src)
    case MovCellReg(offset, src) => MovRmReg(Based(RBP, offset), src)
    case MovRegCell(dst, offset) => MovRegRm(dst, Based(RBP, offset))
    case MovsdRegReg(dst, src) => MovsdRegRm(dst, Direct(src))
    case MovsdCellReg(offset, src) => MovsdRmReg(Based(RBP, offset), src)
    case MovsdRegCell(dst, offset) => MovsdRegRm(dst, Based(RBP, offset))
    case MovRegImm(dst, value) => if Is32(value) then MovRmImm(Direct(dst), value) else MovRegImm64(dst, value)
    case MovCellImm(offset, imm) => MovRmImm(Based(RBP, offset), imm)
  }

  function InsnsOf(code: seq<M.Instr>): (r: seq<Insn>)
    ensures |r| == |code| && forall k :: 0 <= k < |r| ==> IsMove(r[k])
  {
    seq(|code|, k requires 0 <= k < |code| => InsnOf(code[k]))
  }

  /** Decoded, the code does what the resolver's machine does. */
  lemma {:induction false} PerformsCode(code: seq<M.Instr>, s: M.State)
    ensures PerformAll(InsnsOf(code), s) == M.ExecAll(code, s)
    decreases |code|
  {
    if code != [] {
      assert InsnsOf(code)[1..] == InsnsOf(code[1..]);
      assert Perform(InsnOf(code[0]), s) == M.Exec(code[0], s);
      PerformsCode(code[1..], M.Exec(code[0], s));
    }
  }

  lemma FrameStaysThroughout(code: seq<M.Instr>, dests: seq<M.Location>)
    requires R.FrameSafe(code, dests)
    ensures FrameStays(InsnsOf(code))
  {
    forall k | 0 <= k < |code|
      ensures SetsFramePointer(InsnOf(code[k])) <==> M.SetsFramePointer(code[k])
      ensures UsesFrame(InsnOf(code[k])) <==> M.UsesFrame(code[k])
    {
      assert code[k] in code;
    }
  }

  // ----- assembling

  method EmitCell(asm: Assembler, i: M.Instr)
    requires i.MovCellReg? || i.MovRegCell? || i.MovsdCellReg? || i.MovsdRegCell? || i.MovCellImm?
    modifies asm
    ensures Appends(old(asm.code), asm.code, [InsnOf(i)])
  {
    var slot := new Operand();
    Wrap32Exact(i.offset);
    slot.InitAddress(RBP, i.offset);
    match i {
      case MovCellReg(offset, src) => asm.MovqAR(slot, src, Based(RBP, offset));
      case MovRegCell(dst, offset) => asm.MovqRA(dst, slot, Based(RBP, offset));
      case MovsdCellReg(offset, src) => asm.MovsdAR(slot, src, Based(RBP, offset));
      case MovsdRegCell(dst, offset) => asm.MovsdRA(dst, slot, Based(RBP, offset));
      case MovCellImm(offset, imm) => asm.MovqAI(slot, imm, Based(RBP, offset));
    }
  }

  method EmitInstr(asm: Assembler, i: M.Instr)
    modifies asm
    ensures Appends(old(asm.code), asm.code, [InsnOf(i)])
  {
    match i {
      case MovRegReg(dst, src) => asm.MovqRR(dst, src);
      case MovsdRegReg(dst, src) =>
        var oper := new Operand();
        oper.InitRegister(src);
        asm.EmitEscape(0x10, dst, oper, Direct(src), MovsdRegRm(dst, Direct(src)));
      case MovRegImm(dst, value) => asm.MovqRI(dst, value);
      case _ => EmitCell(asm, i);
    }
  }

  lemma AppendsNothing(code: seq<Byte>)
    ensures Appends(code, code, [])
  {
    assert code[|code|..] == [];
    forall rest: seq<Byte> {:trigger [] + rest} ensures DecodeMany(Decode, [] + rest, 0) == Ok([], rest) {
      assert [] + rest == rest;
    }
  }

  method EmitAll(asm: Assembler, code: seq<M.Instr>)
    modifies asm
    ensures Appends(old(asm.code), asm.code, InsnsOf(code))
  {
    ghost var start := asm.code;
    AppendsNothing(start);
    assert InsnsOf(code[..0]) == [];
    for k := 0 to |code|
      invariant Appends(start, asm.code, InsnsOf(code[..k]))
    {
      ghost var before := asm.code;
      EmitInstr(asm, code[k]);
      AppendsBoth(start, before, asm.code, InsnsOf(code[..k]), [InsnOf(code[k])]);
      assert InsnsOf(code[..k]) + [InsnOf(code[k])] == InsnsOf(code[..k + 1]);
    }
    assert code[..|code|] == code;
  }

  /** move_resolver_compile into an empty buffer. If all cycles of the list are of registers, the bytes decode,
      with none left over, to moves that leave in every location but the scratch registers what the simultaneous
      assignment puts there. */
  method Assemble(parallel: seq<V.Move>) returns (ok: bool, bytes: seq<Byte>, ghost insns: seq<Insn>)
    requires R.ValidParallel(parallel)
    ensures ok <==> C.OnlyRegisterCycles(R.Filtered(parallel), R.DestsOf(R.Filtered(parallel)))
    ensures ok ==> DecodeMany(Decode, bytes, |insns|) == Ok(insns, [])
    ensures ok ==> forall k :: 0 <= k < |insns| ==> IsMove(insns[k])
    ensures ok ==> FrameStays(insns)
    ensures ok ==> forall s: M.State, p: M.Place {:trigger PerformAll(insns, s)[p]} ::
              !M.Scratch(p) ==> PerformAll(insns, s)[p] == R.ParallelAssign(parallel, s)[p]
  {
    var resolver := new R.MoveResolver();
    ok := resolver.Compile(parallel);
    var asm := new Assembler();
    EmitAll(asm, resolver.code);
    bytes := asm.code;
    insns := InsnsOf(resolver.code);
    DecodesWhole(bytes, insns);
    if ok {
      FrameStaysThroughout(resolver.code, R.DestsOf(R.Filtered(parallel)));
      forall s: M.State, p: M.Place {:trigger PerformAll(insns, s)[p]}
        ensures !M.Scratch(p) ==> PerformAll(insns, s)[p] == R.ParallelAssign(parallel, s)[p]
      {
        PerformsCode(resolver.code, s);
        assert R.SameEffect(parallel, [], resolver.code, s, p);
      }
    }
  }

  lemma DecodesWhole(bytes: seq<Byte>, insns: seq<Insn>)
    requires Appends([], bytes, insns)
    ensures DecodeMany(Decode, bytes, |insns|) == Ok(insns, [])
  {
    assert bytes[0..] == bytes && bytes + [] == bytes;
    assert Says(bytes, insns);
  }
}
