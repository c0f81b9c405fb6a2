/** What entering and leaving a frame do to the stack pointer, the frame pointer and the stack. */
module Frames {
  import opened Words
  import opened X64
  import opened Encoding
  import opened Assembling
  import M = Machine

  const WRAP := 0x1_0000_0000_0000_0000

  type Word = w: nat | w < WRAP

  /** Addition and subtraction on machine words. */
  function Plus(v: int, n: int): Word {
    (v + n) % WRAP
  }

  function Minus(v: int, n: int): Word {
    (v - n) % WRAP
  }

  /** The registers, and the eight-byte cell at every address. */
  datatype Cpu = Cpu(regs: seq<Word>, memory: imap<int, Word>) {
    ghost predicate Valid() {
      |regs| == 16 && forall a: int :: a in memory
    }
  }

  /** The instructions that build and remove a frame. */
  predicate MovesStack(insn: Insn) {
    match insn
    case PushReg(_) => true
    case PopReg(_) => true
    case MovRmReg(rm, _) => rm.Direct?
    case MovRegImm64(_, _) => true
    case AluRmImm(op, rm, _) => op == SUB && rm.Direct?
    case AluRegRm(op, _, rm) => op == SUB && rm.Direct?
    case _ => false
  }

  /** A push moves the stack pointer down and stores what the register held before; a pop loads the word at the stack
      pointer and moves it up. */
  ghost function Perform(insn: Insn, s: Cpu): (s': Cpu)
    requires s.Valid() && MovesStack(insn)
    ensures s'.Valid()
  {
    match insn
    case PushReg(reg) =>
      var sp := Minus(s.regs[RSP], 8);
      Cpu(s.regs[RSP := sp], s.memory[sp := s.regs[reg]])
    case PopReg(reg) => s.(regs := s.regs[RSP := Plus(s.regs[RSP], 8)][reg := s.memory[s.regs[RSP]]])
    case MovRmReg(Direct(dst), reg) => s.(regs := s.regs[dst := s.regs[reg]])
    case MovRegImm64(dst, imm) => s.(regs := s.regs[dst := Plus(imm, 0)])
    case AluRmImm(_, Direct(dst), imm) => s.(regs := s.regs[dst := Minus(s.regs[dst], imm)])
    case AluRegRm(_, dst, Direct(reg)) => s.(regs := s.regs[dst := Minus(s.regs[dst], s.regs[reg])])
  }

  ghost function PerformAll(insns: seq<Insn>, s: Cpu): (s': Cpu)
    requires s.Valid() && forall k :: 0 <= k < |insns| ==> MovesStack(insns[k])
    ensures s'.Valid()
  {
    if insns == [] then s else PerformAll(insns[1..], Perform(insns[0], s))
  }

  lemma {:induction false} PerformConcat(a: seq<Insn>, b: seq<Insn>, s: Cpu)
    requires s.Valid()
    requires (forall k :: 0 <= k < |a| ==> MovesStack(a[k])) && (forall k :: 0 <= k < |b| ==> MovesStack(b[k]))
    ensures PerformAll(a + b, s) == PerformAll(b, PerformAll(a, s))
    decreases |a|
  {
    if a == [] {
      assert a + b == b;
    } else {
      assert (a + b)[1..] == a[1..] + b;
      PerformConcat(a[1..], b, Perform(a[0], s));
    }
  }

  lemma PerformTwo(a: Insn, b: Insn, s: Cpu)
    requires s.Valid() && MovesStack(a) && MovesStack(b)
    ensures PerformAll([a, b], s) == Perform(b, Perform(a, s))
  {
    assert [a, b][1..] == [b];
    assert [b][1..] == [];
    assert PerformAll([b], Perform(a, s)) == PerformAll([b][1..], Perform(b, Perform(a, s)));
  }

  lemma MinusWraps(v: int, size: int)
    ensures Minus(v, Plus(size, 0)) == Minus(v, size)
  {
    var q := size / WRAP;
    assert v - Plus(size, 0) == v - size + q * WRAP;
    WholeTurns(v - size, q);
  }

  lemma WholeTurns(v: int, q: int)
    ensures (v + q * WRAP) % WRAP == v % WRAP
  {
  }

  lemma PlusUndoesMinus(w: Word)
    ensures Plus(Minus(w, 8), 8) == w
  {
  }

  /** Saving the frame pointer and setting it. */
  lemma FramePointerSaved(s: Cpu)
    requires s.Valid()
    ensures var sp := Minus(s.regs[RSP], 8);
            PerformAll([PushReg(RBP), MovRmReg(Direct(RBP), RSP)], s) ==
            Cpu(s.regs[RSP := sp][RBP := sp], s.memory[sp := s.regs[RBP]])
  {
    PerformTwo(PushReg(RBP), MovRmReg(Direct(RBP), RSP), s);
  }

  /** Making room changes the stack pointer, and the scratch register when the size needs more than 32 bits. */
  lemma RoomMade(s: Cpu, size: int)
    requires s.Valid()
    ensures forall k :: 0 <= k < |ReserveInsns(size)| ==> MovesStack(ReserveInsns(size)[k])
    ensures PerformAll(ReserveInsns(size), s) ==
            s.(regs := (if Is32(size) then s.regs else s.regs[TMP := Plus(size, 0)])[RSP := Minus(s.regs[RSP], size)])
  {
    if Is32(size) {
      var insn := AluRmImm(SUB, Direct(RSP), size);
      assert [insn][1..] == [];
      assert PerformAll([insn], s) == PerformAll([insn][1..], Perform(insn, s));
    } else {
      PerformTwo(MovRegImm64(TMP, size), AluRegRm(SUB, RSP, Direct(TMP)), s);
      MinusWraps(s.regs[RSP], size);
    }
  }

  /** t is in a frame entered from s: the frame pointer is one word below the caller's stack pointer, and the cell it
      points to holds the caller's frame pointer. */
  ghost predicate InFrame(s: Cpu, t: Cpu)
    requires s.Valid() && t.Valid()
  {
    && t.regs[RBP] == Minus(s.regs[RSP], 8)
    && t.memory[t.regs[RBP] + M.SAVED_FRAME_POINTER] == s.regs[RBP]
  }

  /** The instructions of EnterFrame build the frame: they save the frame pointer in the word below the stack pointer,
      let the frame pointer point to it and take size bytes off the stack pointer. They change no other memory and no
      other register, but for the scratch register when the size needs more than 32 bits. */
  lemma EnterBuildsFrame(s: Cpu, size: int)
    requires s.Valid()
    ensures forall k :: 0 <= k < |EnterInsns(size)| ==> MovesStack(EnterInsns(size)[k])
    ensures var t := PerformAll(EnterInsns(size), s);
            && InFrame(s, t) && t.regs[RSP] == Minus(t.regs[RBP], size)
            && (forall reg: Reg :: reg != RSP && reg != RBP && (reg != TMP || Is32(size)) ==>
                  t.regs[reg] == s.regs[reg])
            && forall a: int :: a != t.regs[RBP] ==> t.memory[a] == s.memory[a]
  {
    var front := [PushReg(RBP), MovRmReg(Direct(RBP), RSP)];
    FramePointerSaved(s);
    RoomMade(PerformAll(front, s), size);
    if size != 0 {
      assert EnterInsns(size) == front + ReserveInsns(size);
      PerformConcat(front, ReserveInsns(size), s);
    }
  }

  /** The instructions of LeaveFrame restore both pointers of the caller from any state of the frame, wherever its
      stack pointer has gone, and change nothing else. */
  lemma LeaveRestores(s: Cpu, t: Cpu)
    requires s.Valid() && t.Valid() && InFrame(s, t)
    ensures PerformAll([MovRmReg(Direct(RSP), RBP), PopReg(RBP)], t) ==
            t.(regs := t.regs[RSP := s.regs[RSP]][RBP := s.regs[RBP]])
  {
    PerformTwo(MovRmReg(Direct(RSP), RBP), PopReg(RBP), t);
    PlusUndoesMinus(s.regs[RSP]);
  }

  /** Entering and leaving give back every register, but for the scratch register when the size needs more than 32
      bits, and every cell apart from the one that held the frame pointer. */
  lemma LeaveUndoesEnter(s: Cpu, size: int, reg: Reg, a: int)
    requires s.Valid() && (reg != TMP || Is32(size)) && M.CellsApart(a, Minus(s.regs[RSP], 8))
    ensures forall k :: 0 <= k < |EnterInsns(size)| ==> MovesStack(EnterInsns(size)[k])
    ensures var t := PerformAll([MovRmReg(Direct(RSP), RBP), PopReg(RBP)], PerformAll(EnterInsns(size), s));
            t.regs[reg] == s.regs[reg] && t.memory[a] == s.memory[a]
  {
    EnterBuildsFrame(s, size);
    LeaveRestores(s, PerformAll(EnterInsns(size), s));
  }

  /** The first n slots lie between the stack pointer and the frame pointer just when the frame takes the two words
      below the saved frame pointer and eight bytes for each slot. */
  lemma FrameHoldsSlots(n: nat, size: int)
    ensures (forall slot: int :: 0 <= slot < n ==> 0 <= size + M.FrameOffset(slot)) <==> n == 0 || 8 * (n + 2) <= size
  {
    if n > 0 && forall slot: int :: 0 <= slot < n ==> 0 <= size + M.FrameOffset(slot) {
      assert 0 <= size + M.FrameOffset(n - 1);
    }
  }

  /** flow_graph_compiler_emit_entry asks for as many bytes as there are slots: the last slot is then below the stack
      pointer, and with fewer than 24 slots so are all the others. */
  lemma EntryTakesTooLittle(n: nat)
    requires n > 0
    ensures n + M.FrameOffset(n - 1) < 0
    ensures (forall slot: int :: 0 <= slot < n ==> n + M.FrameOffset(slot) < 0) <==> n < 24
  {
    if forall slot: int :: 0 <= slot < n ==> n + M.FrameOffset(slot) < 0 {
      assert n + M.FrameOffset(0) < 0;
    }
  }
}
