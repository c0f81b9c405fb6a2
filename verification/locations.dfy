/** Operand locations packed into tagged 64-bit words, and the addresses of stack slots. */
module Locations {
  import opened Words
  import opened X64
  import opened Encoding
  import opened Operands
  import Machine

  const TWO_54 := 0x40_0000_0000_0000
  const TWO_55 := 0x80_0000_0000_0000
  const TWO_59 := 0x800_0000_0000_0000
  const TWO_60 := 0x1000_0000_0000_0000
  const TWO_64 := 0x1_0000_0000_0000_0000

  type Word64 = w: nat | w < TWO_64

  // ----- bit fields

  /** bit_field_encode: a shift to the left; unit is two to the power of the position. Nothing is masked. */
  function Shift(unit: nat, value: int): Word64 {
    (value * unit) % TWO_64
  }

  /** bit_field_decode: a shift to the right and a mask; size is two to the power of the width. */
  function Field(unit: nat, size: nat, word: Word64): Word64
    requires 0 < unit && 0 < size <= TWO_64
  {
    (word / unit) % size
  }

  /** The union of bits below a unit and bits from there on, which have none in common. */
  function Join(unit: nat, low: nat, high: Word64): Word64
    requires 0 < unit && low < unit && high % unit == 0 && low + high < TWO_64
  {
    low + high
  }

  lemma Monotone(unit: nat, d: int)
    requires d >= 1
    ensures unit * d >= unit
  {
    assert unit * d == unit * (d - 1) + unit;
  }

  lemma QuotientUnique(unit: nat, q: int, r: nat, high: int, low: nat)
    requires low < unit && r < unit && unit * q + r == unit * high + low
    ensures q == high
  {
    if q < high {
      assert unit * (high - q) == unit * high - unit * q;
      Monotone(unit, high - q);
    } else if high < q {
      assert unit * (q - high) == unit * q - unit * high;
      Monotone(unit, q - high);
    }
  }

  lemma DivModUnique(n: int, unit: nat, high: int, low: nat)
    requires low < unit && n == unit * high + low
    ensures n / unit == high && n % unit == low
  {
    QuotientUnique(unit, n / unit, n % unit, high, low);
  }

  /** Masking twice is masking to the smaller width. */
  lemma MaskTwice(n: int, small: nat, factor: nat)
    requires 0 < small && 0 < factor
    ensures 0 < small * factor && n % (small * factor) % small == n % small
  {
    var big := small * factor;
    assert big > 0;
    var q, r := n / big, n % big;
    var s, t := r / small, r % small;
    assert n == big * q + r && r == small * s + t;
    assert big * q == small * (factor * q);
    assert n == small * (factor * q + s) + t;
    DivModUnique(n, small, factor * q + s, t);
  }

  lemma MaskKeeps(n: int, size: nat)
    requires 0 < size
    ensures n % size == n <==> 0 <= n < size
  {
    if 0 <= n < size {
      DivModUnique(n, size, 0, n);
    }
  }

  /** A field that fits is read back from between the fields below and above it. */
  lemma FieldReads(word: Word64, below: nat, unit: nat, value: nat, size: nat, above: nat)
    requires below < unit && value < size <= TWO_64
    requires word == below + unit * (value + size * above)
    ensures Field(unit, size, word) == value
  {
    DivModUnique(word, unit, value + size * above, below);
    DivModUnique(value + size * above, size, above, value);
  }

  // ----- the words

  const INVALID := 0
  const CONSTANT := 1
  const UNALLOCATED := 3
  const STACK_SLOT := 4
  const DOUBLE_STACK_SLOT := 7
  const REGISTER := 8
  const FPU_REGISTER := 12

  function Kind(loc: Word64): nat {
    Field(1, 16, loc)
  }

  function Payload(loc: Word64): Word64 {
    Field(16, TWO_60, loc)
  }

  lemma ShiftedPayload(payload: int)
    ensures Shift(16, payload) % 16 == 0 && Shift(16, payload) == 16 * (payload % TWO_60)
  {
    var q, r := payload / TWO_60, payload % TWO_60;
    DivModUnique(payload * 16, TWO_64, q, 16 * r);
    DivModUnique(16 * r, 16, r, 0);
  }

  function Allocated(kind: nat, payload: Word64): Word64
    requires kind < 16
  {
    ShiftedPayload(payload);
    Join(16, kind, Shift(16, payload))
  }

  lemma AllocatedReads(kind: nat, payload: Word64)
    requires kind < 16
    ensures Kind(Allocated(kind, payload)) == kind
    ensures Payload(Allocated(kind, payload)) == payload % TWO_60
  {
    ShiftedPayload(payload);
    var loc := Allocated(kind, payload);
    FieldReads(loc, 0, 1, kind, 16, payload % TWO_60);
    FieldReads(loc, kind, 16, payload % TWO_60, TWO_60, 0);
  }

  /** unallocated: the policy is not masked either. */
  function Unallocated(policy: nat): Word64
    requires policy < TWO_64
  {
    Allocated(UNALLOCATED, Shift(1, policy))
  }

  function Policy(loc: Word64): nat {
    Field(1, 8, Payload(loc))
  }

  /** The field for policies has three bits and the policies are single bits up to 16: reading a policy back works
      exactly for those below 8, so not for an FPU register required (8) and the same as the first input (16). */
  lemma PolicyRoundTrip(policy: nat)
    requires policy < TWO_60
    ensures Kind(Unallocated(policy)) == UNALLOCATED
    ensures Policy(Unallocated(policy)) == policy <==> policy < 8
  {
    AllocatedReads(UNALLOCATED, Shift(1, policy));
  }

  lemma RegisterRoundTrip(reg: Reg)
    ensures Kind(Allocated(REGISTER, reg)) == REGISTER && Payload(Allocated(REGISTER, reg)) == reg
    ensures Kind(Allocated(FPU_REGISTER, reg)) == FPU_REGISTER && Payload(Allocated(FPU_REGISTER, reg)) == reg
  {
    AllocatedReads(REGISTER, reg);
    AllocatedReads(FPU_REGISTER, reg);
  }

  // ----- constants

  /** loc_init_c: the address of the constant's instruction with the low tag bits set to 01. */
  function ConstantWord(address: Word64): Word64 {
    if address % 2 == 0 then address + 1 else address
  }

  function ConstantAddress(loc: Word64): Word64 {
    loc - loc % 4
  }

  predicate IsConstant(loc: Word64) {
    loc % 4 == CONSTANT
  }

  /** Addresses are kept exactly when they are multiples of 4. */
  lemma ConstantRoundTrip(address: Word64)
    ensures ConstantAddress(ConstantWord(address)) == address <==> address % 4 == 0
    ensures IsConstant(ConstantWord(address)) <==> address % 4 < 2
  {
  }

  // ----- stack slots

  const STACK_INDEX_BIAS := TWO_54

  function SlotPayload(bias: int, slot: int, base: Reg): Word64 {
    var index := (bias + slot) % TWO_64;
    ShiftedIndex(index);
    Join(32, base, Shift(32, index))
  }

  lemma ShiftedIndex(index: int)
    ensures Shift(32, index) % 32 == 0 && Shift(32, index) == 32 * (index % TWO_59)
  {
    var q, r := index / TWO_59, index % TWO_59;
    DivModUnique(index * 32, TWO_64, q, 32 * r);
    DivModUnique(32 * r, 32, r, 0);
  }

  function SlotWord(kind: nat, bias: int, slot: int, base: Reg): Word64
    requires kind < 16
  {
    Allocated(kind, SlotPayload(bias, slot, base))
  }

  /** loc_get_stack_slot */
  function StackSlot(bias: int, loc: Word64): int {
    Field(32, TWO_55, Payload(loc)) - bias
  }

  /** loc_get_stack_register */
  function StackRegister(loc: Word64): nat {
    Field(1, 32, Payload(loc))
  }

  /** What is left of a payload in 60 bits. */
  lemma PayloadInField(base: Reg, index: int, payload: nat)
    requires payload == base + 32 * (index % TWO_59)
    ensures payload % TWO_60 == base + 32 * (index % TWO_55)
  {
    var i := index % TWO_59;
    MaskTwice(index, TWO_55, 16);
    assert i == TWO_55 * (i / TWO_55) + index % TWO_55;
    DivModUnique(payload, TWO_60, i / TWO_55, base + 32 * (index % TWO_55));
  }

  lemma SlotPayloadReads(bias: int, slot: int, base: Reg, p: Word64)
    requires p == SlotPayload(bias, slot, base) % TWO_60
    ensures Field(1, 32, p) == base
    ensures Field(32, TWO_55, p) == (bias + slot) % TWO_55
  {
    var index := (bias + slot) % TWO_64;
    ShiftedIndex(index);
    PayloadInField(base, index, SlotPayload(bias, slot, base));
    MaskTwice(bias + slot, TWO_55, 512);
    FieldReads(p, 0, 1, base, 32, index % TWO_55);
    FieldReads(p, base, 32, index % TWO_55, TWO_55, 0);
  }

  /** For any bias, a slot is read back exactly when biasing it gives a value of 55 bits. The base register is read
      back always. */
  lemma SlotRoundTrip(kind: nat, bias: int, slot: int, base: Reg)
    requires kind < 16
    ensures var loc := SlotWord(kind, bias, slot, base);
            && Kind(loc) == kind && StackRegister(loc) == base
            && (StackSlot(bias, loc) == slot <==> 0 <= bias + slot < TWO_55)
  {
    AllocatedReads(kind, SlotPayload(bias, slot, base));
    SlotPayloadReads(bias, slot, base, Payload(SlotWord(kind, bias, slot, base)));
    MaskKeeps(bias + slot, TWO_55);
  }

  /** With the intended bias that is half the range on either side of 0. (The source shifts a 32-bit 1 by 54, which
      gives no such bias: with a bias of 0 no negative slot, that is no parameter, is read back.) */
  lemma IntendedSlots(kind: nat, slot: int, base: Reg)
    requires kind < 16
    ensures StackSlot(STACK_INDEX_BIAS, SlotWord(kind, STACK_INDEX_BIAS, slot, base)) == slot <==>
            -TWO_54 <= slot < TWO_54
    ensures slot < 0 ==> StackSlot(0, SlotWord(kind, 0, slot, base)) != slot
  {
    SlotRoundTrip(kind, STACK_INDEX_BIAS, slot, base);
    SlotRoundTrip(kind, 0, slot, base);
  }

  lemma AllocatedInBits(kind: nat, payload: nat)
    requires kind < 16 && payload < TWO_60
    ensures Allocated(kind, payload) == kind + 16 * payload
  {
    ShiftedPayload(payload);
    MaskKeeps(payload, TWO_60);
  }

  lemma SlotInBits(slot: int, base: Reg)
    requires -TWO_54 <= slot < TWO_54
    ensures SlotPayload(STACK_INDEX_BIAS, slot, base) == base + 32 * (TWO_54 + slot) < TWO_60
  {
    var index := STACK_INDEX_BIAS + slot;
    MaskKeeps(index, TWO_64);
    ShiftedIndex(index);
    MaskKeeps(index, TWO_59);
  }

  // The words themselves: the kind is in the low four bits, the payload above it.

  lemma RegisterInBits(reg: Reg)
    ensures Allocated(REGISTER, reg) == 8 + 16 * reg && Allocated(FPU_REGISTER, reg) == 12 + 16 * reg
  {
    AllocatedInBits(REGISTER, reg);
    AllocatedInBits(FPU_REGISTER, reg);
  }

  /** The payload of a slot is the base register in five bits, and above it the slot plus 2^54. */
  lemma SlotWordInBits(slot: int, base: Reg)
    requires -TWO_54 <= slot < TWO_54
    ensures SlotWord(STACK_SLOT, STACK_INDEX_BIAS, slot, base) == 4 + 16 * (base + 32 * (0x40_0000_0000_0000 + slot))
    ensures SlotWord(DOUBLE_STACK_SLOT, STACK_INDEX_BIAS, slot, base) ==
            7 + 16 * (base + 32 * (0x40_0000_0000_0000 + slot))
  {
    SlotInBits(slot, base);
    AllocatedInBits(STACK_SLOT, base + 32 * (TWO_54 + slot));
    AllocatedInBits(DOUBLE_STACK_SLOT, base + 32 * (TWO_54 + slot));
  }

  lemma PolicyInBits(policy: nat)
    requires policy < TWO_60
    ensures Unallocated(policy) == 3 + 16 * policy
  {
    MaskKeeps(policy, TWO_64);
    AllocatedInBits(UNALLOCATED, policy);
  }

  // ----- kinds

  /** What the kind predicates say of a word: invalid, constant, unallocated, stack slot, double stack slot,
      register, FPU register. */
  function Answers(loc: Word64): seq<bool> {
    [loc == INVALID, IsConstant(loc), Kind(loc) == UNALLOCATED, Kind(loc) == STACK_SLOT, Kind(loc) == DOUBLE_STACK_SLOT,
     Kind(loc) == REGISTER, Kind(loc) == FPU_REGISTER]
  }

  /** No word answers to two of them, whatever address a constant carries. */
  lemma KindsExclusive(loc: Word64)
    ensures forall i, j :: 0 <= i < j < |Answers(loc)| ==> !(Answers(loc)[i] && Answers(loc)[j])
  {
    assert Kind(loc) % 4 == loc % 4;
  }

  /** Words of different kinds, or with different payloads, are different. */
  lemma WordsDistinct(a: nat, b: nat, p: Word64, q: Word64)
    requires a < 16 && b < 16 && p < TWO_60 && q < TWO_60 && Allocated(a, p) == Allocated(b, q)
    ensures a == b && p == q
  {
    AllocatedReads(a, p);
    AllocatedReads(b, q);
  }

  // ----- addresses of stack slots

  /** Different slots are disjoint eight-byte cells, none of them the saved frame pointer or the return address. */
  lemma SlotCells(a: int, b: int)
    ensures a != b <==> Machine.CellsApart(Machine.FrameOffset(a), Machine.FrameOffset(b))
    ensures Machine.CellsApart(Machine.FrameOffset(a), Machine.SAVED_FRAME_POINTER) &&
            Machine.CellsApart(Machine.FrameOffset(a), Machine.RETURN_ADDRESS)
  {
  }

  lemma AddressableFits(slot: int)
    ensures Machine.Addressable(slot) <==> Is32(Machine.FrameOffset(slot))
    ensures Wrap32(Machine.FrameOffset(slot)) == Machine.FrameOffset(slot) <==> Machine.Addressable(slot)
  {
  }

  lemma SlotReads(loc: Word64, kind: nat, slot: int, base: Reg)
    requires kind < 16 && -TWO_54 <= slot < TWO_54 && loc == SlotWord(kind, STACK_INDEX_BIAS, slot, base)
    ensures StackSlot(STACK_INDEX_BIAS, loc) == slot && StackRegister(loc) == base
  {
    SlotRoundTrip(kind, STACK_INDEX_BIAS, slot, base);
  }

  /** loc_encode_stack_address, for a word that holds a slot: the operand that reads and writes the slot's cell. */
  method EncodeStackAddress(loc: Word64, addr: Operand, ghost kind: nat, ghost slot: int, ghost base: Reg)
    requires -TWO_54 <= slot < TWO_54 && (kind == STACK_SLOT || kind == DOUBLE_STACK_SLOT)
    requires loc == SlotWord(kind, STACK_INDEX_BIAS, slot, base)
    modifies addr
    ensures Describes(addr.rex, addr.encoding,
            Based(base, Wrap32(if base == RBP then Machine.FrameOffset(slot) else slot * 8)))
    ensures base == RBP && Machine.Addressable(slot) ==>
            Describes(addr.rex, addr.encoding, Based(RBP, Machine.FrameOffset(slot)))
  {
    SlotReads(loc, kind, slot, base);
    AddressableFits(slot);
    EncodeSlot(StackSlot(STACK_INDEX_BIAS, loc), StackRegister(loc), addr);
  }

  method EncodeSlot(index: int, base: Reg, addr: Operand)
    requires -TWO_54 <= index < TWO_54
    modifies addr
    ensures Describes(addr.rex, addr.encoding,
            Based(base, Wrap32(if base == RBP then Machine.FrameOffset(index) else index * 8)))
  {
    if base == RBP {
      if index < 0 {
        addr.InitAddress(base, (1 - index) * 8);
      } else {
        addr.InitAddress(base, (-3 - index) * 8);
      }
    } else {
      addr.InitAddress(base, index * 8);
    }
  }
}
