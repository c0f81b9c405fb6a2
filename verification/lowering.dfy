/** Lowering of syntax trees to the linear instruction list of a function. */
module Lowering {
  import opened Wrappers

  type Value = int

  /** The four floating-point operators; what they compute is a parameter of the semantics. */
  datatype BinaryOp = Add | Subtract | Multiply | Divide

  type Arithmetic = (BinaryOp, Value, Value) -> Value

  /** A local variable. A constant one carries its value. */
  datatype Local = Local(name: nat, constant: Option<Value>)

  /** Other stands for the node kinds the visitors do not handle. */
  datatype Ast =
    | Literal(value: Value)
    | Load(local: Local)
    | Store(local: Local, stored: Ast)
    | Binary(op: BinaryOp, left: Ast, right: Ast)
    | Return(result: Ast)
    | Sequence(children: seq<Ast>)
    | Other

  // ----- what a tree means

  /** Variables, the stores made so far, and the result once returned. */
  datatype State = State(locals: map<nat, Value>, stores: seq<(nat, Value)>, result: Option<Value>)

  /** What the variable's slot holds. */
  function ReadSlot(locals: map<nat, Value>, x: Local): Value {
    if x.name in locals then locals[x.name] else 0
  }

  function ReadLocal(locals: map<nat, Value>, x: Local): Value {
    if x.constant.Some? then x.constant.value else ReadSlot(locals, x)
  }

  function WriteLocal(s: State, x: Local, v: Value): State {
    s.(locals := s.locals[x.name := v], stores := s.stores + [(x.name, v)])
  }

  /** Left-to-right evaluation. A node without a value evaluates to 0. */
  function Eval(arith: Arithmetic, ast: Ast, s: State): (State, Value)
    decreases ast, 1
  {
    match ast
    case Literal(v) => (s, v)
    case Load(x) => (s, ReadLocal(s.locals, x))
    case Store(x, stored) =>
      var (after, v) := Eval(arith, stored, s);
      (WriteLocal(after, x, v), v)
    case Binary(op, left, right) =>
      var (middle, a) := Eval(arith, left, s);
      var (after, b) := Eval(arith, right, middle);
      (after, arith(op, a, b))
    case Return(result) =>
      var (after, v) := Eval(arith, result, s);
      (after.(result := Some(v)), 0)
    case Sequence(_) => (EvalFrom(arith, ast, 0, s), 0)
    case Other => (s, 0)
  }

  /** The children from k on, up to the first return. */
  function EvalFrom(arith: Arithmetic, ast: Ast, k: nat, s: State): State
    requires ast.Sequence? && k <= |ast.children|
    decreases ast, 0, |ast.children| - k
  {
    if k == |ast.children| || s.result.Some? then s
    else EvalFrom(arith, ast, k + 1, Eval(arith, ast.children[k], s).0)
  }

  // ----- what an instruction list does

  datatype Op =
    | ConstantOp(value: Value)
    | LoadOp(local: Local)
    | StoreOp(local: Local)
    | ArithmeticOp(op: BinaryOp)
    | ReturnOp

  /** An instruction: its own name, the definitions it takes as inputs, and the temporary it is bound to (none
      is 0: temporaries count from 1). */
  datatype Instr = Instr(id: nat, op: Op, inputs: seq<nat>, temp: int)

  /** Values by defining instruction. */
  datatype Machine = Machine(state: State, values: map<nat, Value>)

  function Input(m: Machine, i: Instr, k: nat): Value {
    if k < |i.inputs| && i.inputs[k] in m.values then m.values[i.inputs[k]] else 0
  }

  /** A load reads the slot: that a variable is a constant is only known to the lowering. */
  function Step(arith: Arithmetic, i: Instr, m: Machine): Machine {
    var first, second := Input(m, i, 0), Input(m, i, 1);
    match i.op
    case ConstantOp(v) => m.(values := m.values[i.id := v])
    case LoadOp(x) => m.(values := m.values[i.id := ReadSlot(m.state.locals, x)])
    case StoreOp(x) => Machine(WriteLocal(m.state, x, first), m.values[i.id := first])
    case ArithmeticOp(op) => m.(values := m.values[i.id := arith(op, first, second)])
    case ReturnOp => m.(state := m.state.(result := Some(first)))
  }

  function Run(arith: Arithmetic, code: seq<Instr>, m: Machine): Machine
    decreases |code|
  {
    if code == [] || m.state.result.Some? then m else Run(arith, code[1..], Step(arith, code[0], m))
  }

  lemma {:induction false} RunConcat(arith: Arithmetic, a: seq<Instr>, b: seq<Instr>, m: Machine)
    ensures Run(arith, a + b, m) == Run(arith, b, Run(arith, a, m))
    decreases |a|
  {
    if a == [] {
      assert a + b == b;
    } else if m.state.result.None? {
      assert (a + b)[1..] == a[1..] + b;
      RunConcat(arith, a[1..], b, Step(arith, a[0], m));
    }
  }

  // ----- the lowering as a function

  datatype Context = ForEffect | ForValue

  /** What visiting a tree leaves behind: the list, whether it ends in a return, the definition of its value,
      and the counters of names and temporaries. */
  datatype Lowered = Lowered(code: seq<Instr>, closed: bool, value: Option<nat>, next: nat, temps: int)

  function InputCount(op: Op): nat {
    match op
    case ConstantOp(_) => 0
    case LoadOp(_) => 0
    case StoreOp(_) => 1
    case ArithmeticOp(_) => 2
    case ReturnOp => 1
  }

  /** A finished definition: bound to a temporary for its value, just done for its effect, and dropped when it is
      a constant nobody uses. */
  function Define(context: Context, code: seq<Instr>, op: Op, inputs: seq<nat>, next: nat, temps: int): Lowered {
    var left := temps - InputCount(op);
    if context == ForValue then
      Lowered(code + [Instr(next, op, inputs, left + 1)], false, Some(next), next + 1, left + 1)
    else if op.ConstantOp? then Lowered(code, false, None, next + 1, temps)
    else Lowered(code + [Instr(next, op, inputs, 0)], false, None, next + 1, left)
  }

  /** loads says whether the value visitor handles loads (the source never binds its own load visitor, so that a
      load there leaves no value). None is a crash. */
  function Lower(ast: Ast, context: Context, loads: bool, next: nat, temps: int): (r: Option<Lowered>)
    decreases ast, 1
  {
    match ast
    case Literal(v) => Some(Define(context, [], ConstantOp(v), [], next, temps))
    case Load(x) =>
      if context == ForValue && loads then
        Some(Define(context, [], if x.constant.Some? then ConstantOp(x.constant.value) else LoadOp(x), [], next, temps))
      else Some(Lowered([], false, None, next, temps))
    case Store(x, stored) =>
      var v := Lower(stored, ForValue, loads, next, temps);
      if v.Some? && v.value.value.Some? then
        Some(Define(context, v.value.code, StoreOp(x), [v.value.value.value], v.value.next, v.value.temps))
      else None
    case Binary(op, left, right) =>
      var a := Lower(left, ForValue, loads, next, temps);
      if a.Some? then
        var b := Lower(right, ForValue, loads, a.value.next, a.value.temps);
        if b.Some? && a.value.value.Some? && b.value.value.Some? then
          Some(Define(context, a.value.code + b.value.code, ArithmeticOp(op),
              [a.value.value.value, b.value.value.value], b.value.next, b.value.temps))
        else None
      else None
    case Return(result) =>
      var v := Lower(result, ForValue, loads, next, temps);
      if v.Some? && v.value.value.Some? then
        Some(Lowered(v.value.code + [Instr(v.value.next, ReturnOp, [v.value.value.value], 0)], true, None,
            v.value.next + 1, v.value.temps - 1))
      else None
    case Sequence(_) => LowerFrom(ast, 0, loads, Lowered([], false, None, next, temps))
    case Other => None
  }

  function LowerFrom(ast: Ast, k: nat, loads: bool, sofar: Lowered): Option<Lowered>
    requires ast.Sequence? && k <= |ast.children|
    decreases ast, 0, |ast.children| - k
  {
    if k == |ast.children| || sofar.closed then Some(sofar)
    else
      var child := Lower(ast.children[k], ForEffect, loads, sofar.next, sofar.temps);
      if child.None? then None
      else LowerFrom(ast, k + 1, loads,
          Lowered(sofar.code + child.value.code, child.value.closed, None, child.value.next, child.value.temps))
  }

  // ----- which trees are lowered

  predicate Returns(ast: Ast)
    decreases ast
  {
    ast.Return? || (ast.Sequence? && exists k :: 0 <= k < |ast.children| && Returns(ast.children[k]))
  }

  /** Trees with a value. */
  predicate HasValue(ast: Ast, loads: bool) {
    match ast
    case Literal(_) => true
    case Load(_) => loads
    case Store(_, stored) => HasValue(stored, loads)
    case Binary(_, left, right) => HasValue(left, loads) && HasValue(right, loads)
    case _ => false
  }

  /** Every operand of a store, an operator or a return has a value, and nothing unhandled occurs, in the part of
      the tree up to the first return. */
  predicate Accepted(ast: Ast, loads: bool)
    decreases ast, 1
  {
    match ast
    case Literal(_) => true
    case Load(_) => true
    case Store(_, stored) => HasValue(stored, loads)
    case Binary(_, left, right) => HasValue(left, loads) && HasValue(right, loads)
    case Return(result) => HasValue(result, loads)
    case Sequence(_) => AcceptedFrom(ast, 0, loads)
    case Other => false
  }

  predicate AcceptedFrom(ast: Ast, k: nat, loads: bool)
    requires ast.Sequence? && k <= |ast.children|
    decreases ast, 0, |ast.children| - k
  {
    k == |ast.children| ||
        (Accepted(ast.children[k], loads) && (Returns(ast.children[k]) || AcceptedFrom(ast, k + 1, loads)))
  }
}
