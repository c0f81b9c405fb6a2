/** Locations, the moves between them, and the machine code a move turns into. */
module Machine {
  import opened Words

  /** A displacement from the frame pointer. */
  type Offset = Imm32

  /** The slots whose cell is within a 32-bit displacement of the frame pointer. */
  predicate Addressable(slot: int) {
    -0xFFF_FFFE <= slot <= 0xFFF_FFFD
  }

  type Slot = s: int | Addressable(s)

  /** A location, unpacked from its word (module Locations has the packing). */
  datatype Location =
    | Invalid
    | Constant(value: Imm64)
    | Register(reg: Reg)
    | FpuRegister(xmm: Reg)
    | StackSlot(slot: Slot)
    | DoubleStackSlot(slot: Slot)

  const FPREG: Reg := 5
  const FPUTMP: Reg := 0

  /** What can hold a value: a register or an eight-byte cell of the frame. */
  datatype Place = CpuPlace(reg: Reg) | FpuPlace(xmm: Reg) | Cell(offset: int)

  /** loc_encode_stack_address for a slot based on the frame pointer. */
  function FrameOffset(slot: int): int {
    if slot < 0 then (1 - slot) * 8 else (-3 - slot) * 8
  }

  /** What the frame holds next to the slots, counted from the frame pointer in bytes. */
  const SAVED_FRAME_POINTER := 0
  const RETURN_ADDRESS := 8

  /** Two eight-byte cells do not overlap. */
  predicate CellsApart(a: int, b: int) {
    a + 8 <= b || b + 8 <= a
  }

  /** Parameters lie above the return address, the last one next to it, and locals below the saved frame pointer, the
      first one three words below; the next higher slot is eight bytes lower. */
  lemma SlotSides(slot: int)
    ensures slot < 0 <==> FrameOffset(slot) > RETURN_ADDRESS
    ensures slot >= 0 <==> FrameOffset(slot) < SAVED_FRAME_POINTER
    ensures FrameOffset(-1) == RETURN_ADDRESS + 8 && FrameOffset(0) == SAVED_FRAME_POINTER - 24
    ensures slot != -1 ==> FrameOffset(slot + 1) == FrameOffset(slot) - 8
  {
  }

  /** Slots and double slots are addressed alike. */
  function PlaceOf(l: Location): Place
    requires !l.Invalid? && !l.Constant?
  {
    match l
    case Register(r) => CpuPlace(r)
    case FpuRegister(x) => FpuPlace(x)
    case StackSlot(s) => Cell(FrameOffset(s))
    case DoubleStackSlot(s) => Cell(FrameOffset(s))
  }

  /** The machine instructions the resolver asks the assembler for. */
  datatype Instr =
    | MovRegReg(dst: Reg, src: Reg)
    | MovCellReg(offset: Offset, src: Reg)
    | MovRegCell(dst: Reg, offset: Offset)
    | MovsdRegReg(dst: Reg, src: Reg)
    | MovsdCellReg(offset: Offset, src: Reg)
    | MovsdRegCell(dst: Reg, offset: Offset)
    | MovRegImm(dst: Reg, value: Imm64)
    | MovCellImm(offset: Offset, imm: Imm32)

  /** A machine state: the value of every place. */
  type State = s: imap<Place, int> | forall p: Place :: p in s ghost witness imap p: Place :: 0

  ghost function Exec(i: Instr, s: State): State {
    match i
    case MovRegReg(d, r) => s[CpuPlace(d) := s[CpuPlace(r)]]
    case MovCellReg(o, r) => s[Cell(o) := s[CpuPlace(r)]]
    case MovRegCell(d, o) => s[CpuPlace(d) := s[Cell(o)]]
    case MovsdRegReg(d, x) => s[FpuPlace(d) := s[FpuPlace(x)]]
    case MovsdCellReg(o, x) => s[Cell(o) := s[FpuPlace(x)]]
    case MovsdRegCell(d, o) => s[FpuPlace(d) := s[Cell(o)]]
    case MovRegImm(d, v) => s[CpuPlace(d) := v]
    case MovCellImm(o, v) => s[Cell(o) := v]
  }

  ghost function ExecAll(code: seq<Instr>, s: State): State {
    if code == [] then s else ExecAll(code[1..], Exec(code[0], s))
  }

  lemma {:induction false} ExecConcat(c: seq<Instr>, d: seq<Instr>, s: State)
    ensures ExecAll(c + d, s) == ExecAll(d, ExecAll(c, s))
    decreases |c|
  {
    if c == [] {
      assert c + d == d;
    } else {
      assert (c + d)[1..] == c[1..] + d;
      ExecConcat(c[1..], d, Exec(c[0], s));
    }
  }

  /** asm_movq_ai: an immediate that does not fit 32 bits goes through TMP. */
  function MovCellImmCode(offset: Offset, v: Imm64): seq<Instr> {
    if Is32(v) then [MovCellImm(offset, v)] else [MovRegImm(TMP, v), MovCellReg(offset, TMP)]
  }

  function OffsetOf(l: Location): Offset {
    match l
    case StackSlot(s) => FrameOffset(s)
    case DoubleStackSlot(s) => FrameOffset(s)
    case _ => 0
  }

  predicate IsSlot(l: Location) {
    l.StackSlot? || l.DoubleStackSlot?
  }

  /** The code move_resolver_emit_move appends. In the source the branch from one FPU register to another
      emits nothing; here it moves. Where the kinds do not match, the last branch of each kind takes the bits of a
      register for a slot; cell 0 stands for the memory it writes. */
  function MoveCode(source: Location, dest: Location): seq<Instr> {
    if source.Register? then
      if dest.Register? then [MovRegReg(dest.reg, source.reg)]
      else [MovCellReg(OffsetOf(dest), source.reg)]
    else if source.StackSlot? then
      if dest.Register? then [MovRegCell(dest.reg, OffsetOf(source))]
      else [MovRegCell(TMP, OffsetOf(source)), MovCellReg(OffsetOf(dest), TMP)]
    else if source.FpuRegister? then
      if dest.FpuRegister? then [MovsdRegReg(dest.xmm, source.xmm)]
      else [MovsdCellReg(OffsetOf(dest), source.xmm)]
    else if source.DoubleStackSlot? then
      if dest.FpuRegister? then [MovsdRegCell(dest.xmm, OffsetOf(source))]
      else [MovsdRegCell(FPUTMP, OffsetOf(source)), MovsdCellReg(OffsetOf(dest), FPUTMP)]
    else
      var v := if source.Constant? then source.value else 0;
      if dest.Register? then [MovRegImm(dest.reg, v)]
      else MovCellImmCode(OffsetOf(dest), v)
  }

  /** The code move_resolver_emit_swap appends. */
  function SwapCode(a: Reg, b: Reg): seq<Instr> {
    [MovRegReg(TMP, a), MovRegReg(a, b), MovRegReg(b, TMP)]
  }

  ghost predicate Scratch(p: Place) {
    p == CpuPlace(TMP) || p == FpuPlace(FPUTMP)
  }

  /** A location moves may read: not a scratch register. */
  predicate Readable(l: Location) {
    !l.Invalid? && l != Register(TMP) && l != FpuRegister(FPUTMP)
  }

  /** A location moves may write. */
  predicate Writable(l: Location) {
    Readable(l) && !l.Constant?
  }

  /** The pairs of kinds emit_move has code for: no value goes from the processor's side to a floating-point
      register, or back. */
  predicate Movable(source: Location, dest: Location) {
    && Readable(source) && Writable(dest)
    && (source.Register? || source.StackSlot? || source.Constant? ==> !dest.FpuRegister?)
    && (source.FpuRegister? || source.DoubleStackSlot? ==> !dest.Register?)
  }

  ghost function ValueIn(l: Location, s: State): int
    requires !l.Invalid?
  {
    if l.Constant? then l.value else s[PlaceOf(l)]
  }

  /** A move whose kinds match puts the source's value in the destination, and changes at most scratch registers
      besides. Otherwise the destination keeps what it had. */
  lemma MoveCodeMoves(source: Location, dest: Location, s: State)
    requires Readable(source) && Writable(dest)
    ensures var s' := ExecAll(MoveCode(source, dest), s);
            if Movable(source, dest) then
              && s'[PlaceOf(dest)] == ValueIn(source, s)
              && forall p: Place :: !Scratch(p) && p != PlaceOf(dest) ==> s'[p] == s[p]
            else s'[PlaceOf(dest)] == s[PlaceOf(dest)]
  {
    var code := MoveCode(source, dest);
    if |code| == 2 {
      assert code[1..] == [code[1]];
      assert ExecAll(code, s) == ExecAll([code[1]], Exec(code[0], s));
    }
    assert forall i: Instr, t: State :: ExecAll([i], t) == Exec(i, t) by {
      forall i: Instr, t: State ensures ExecAll([i], t) == Exec(i, t) {
        assert [i][1..] == [];
      }
    }
  }

  /** The state that holds x at d and 0 elsewhere. */
  ghost function OnlyAt(d: Place, x: int): State {
    imap p: Place :: Pick(p, d, x)
  }

  function Pick(p: Place, d: Place, x: int): int {
    if p == d then x else 0
  }

  ghost predicate Moved(source: Location, dest: Location, s: State)
    requires Readable(source) && Writable(dest)
  {
    ExecAll(MoveCode(source, dest), s)[PlaceOf(dest)] == ValueIn(source, s)
  }

  /** The code for a move carries it out, whatever the state, if and only if the kinds match. */
  lemma MovesIffKindsMatch(source: Location, dest: Location)
    requires Readable(source) && Writable(dest)
    ensures (forall s: State :: Moved(source, dest, s)) <==> Movable(source, dest)
  {
    forall s: State | Movable(source, dest) ensures Moved(source, dest, s) {
      MoveCodeMoves(source, dest, s);
    }
    if !Movable(source, dest) {
      var s := OnlyAt(PlaceOf(dest), if source.Constant? then source.value + 1 else 1);
      MoveCodeMoves(source, dest, s);
      assert !Moved(source, dest, s);
    }
  }

  // ----- the frame pointer, through which slots are addressed

  predicate UsesFrame(i: Instr) {
    i.MovCellReg? || i.MovRegCell? || i.MovsdCellReg? || i.MovsdRegCell? || i.MovCellImm?
  }

  predicate SetsFramePointer(i: Instr) {
    (i.MovRegReg? || i.MovRegCell? || i.MovRegImm?) && i.dst == FPREG
  }

  lemma MoveCodeFrame(source: Location, dest: Location)
    requires Movable(source, dest)
    ensures !IsSlot(source) && !IsSlot(dest) ==> forall i :: i in MoveCode(source, dest) ==> !UsesFrame(i)
    ensures dest != Register(FPREG) ==> forall i :: i in MoveCode(source, dest) ==> !SetsFramePointer(i)
  {
  }

  lemma SwapCodeSwaps(a: Reg, b: Reg, s: State)
    requires a != TMP && b != TMP && a != b
    ensures var s' := ExecAll(SwapCode(a, b), s);
            && s'[CpuPlace(a)] == s[CpuPlace(b)] && s'[CpuPlace(b)] == s[CpuPlace(a)]
            && forall p: Place :: !Scratch(p) && p != CpuPlace(a) && p != CpuPlace(b) ==> s'[p] == s[p]
  {
    var code := SwapCode(a, b);
    var s1 := Exec(code[0], s);
    var s2 := Exec(code[1], s1);
    assert code[1..][1..] == [code[2]] && code[1..][0] == code[1] && [code[2]][1..] == [];
    assert ExecAll(code, s) == ExecAll(code[1..], s1) == ExecAll([code[2]], s2) == Exec(code[2], s2);
  }
}
