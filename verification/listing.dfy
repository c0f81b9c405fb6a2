/** Which operators the lowered list holds. */
module Listing {
  import opened Lowering
  import opened LoweredCode
  import opened Wrappers

  function Ops(code: seq<Instr>): seq<Op> {
    if code == [] then [] else Ops(code[..|code| - 1]) + [code[|code| - 1].op]
  }

  /** The operators of a tree in postorder, up to the first return. Values nobody uses are not computed, and a
      constant variable is not loaded. */
  function Operators(ast: Ast, context: Context, loads: bool): seq<Op>
    decreases ast, 1
  {
    match ast
    case Literal(v) => if context == ForValue then [ConstantOp(v)] else []
    case Load(x) =>
      if context == ForEffect || !loads then []
      else if x.constant.Some? then [ConstantOp(x.constant.value)]
      else [LoadOp(x)]
    case Store(x, stored) => Operators(stored, ForValue, loads) + [StoreOp(x)]
    case Binary(op, left, right) =>
      Operators(left, ForValue, loads) + Operators(right, ForValue, loads) + [ArithmeticOp(op)]
    case Return(result) => Operators(result, ForValue, loads) + [ReturnOp]
    case Sequence(_) => OperatorsFrom(ast, 0, loads)
    case Other => []
  }

  function OperatorsFrom(ast: Ast, k: nat, loads: bool): seq<Op>
    requires ast.Sequence? && k <= |ast.children|
    decreases ast, 0, |ast.children| - k
  {
    if k == |ast.children| then []
    else
      Operators(ast.children[k], ForEffect, loads) +
      if Returns(ast.children[k]) then [] else OperatorsFrom(ast, k + 1, loads)
  }

  lemma {:induction false} OpsConcat(a: seq<Instr>, b: seq<Instr>)
    ensures Ops(a + b) == Ops(a) + Ops(b)
    decreases |b|
  {
    if b == [] {
      assert a + b == a;
    } else {
      var n := |b| - 1;
      assert (a + b)[..|a| + n] == a + b[..n] && (a + b)[|a| + n] == b[n];
      OpsConcat(a, b[..n]);
    }
  }

  lemma OpsOneMore(a: seq<Instr>, i: Instr)
    ensures Ops(a + [i]) == Ops(a) + [i.op]
  {
    assert (a + [i])[..|a|] == a;
  }

  lemma {:induction false} LoweredOperators(ast: Ast, context: Context, loads: bool, next: nat, temps: int)
    requires Lower(ast, context, loads, next, temps).Some?
    ensures Ops(Lower(ast, context, loads, next, temps).value.code) == Operators(ast, context, loads)
    decreases ast, 1
  {
    match ast
    case Literal(_) =>
      LeafOperators(context, ConstantOp(ast.value), next, temps);
    case Load(x) =>
      LeafOperators(context, if x.constant.Some? then ConstantOp(x.constant.value) else LoadOp(x), next, temps);
    case Store(_, stored) =>
      LoweredOperators(stored, ForValue, loads, next, temps);
      var v := Lower(stored, ForValue, loads, next, temps).value;
      DefinedOperators(context, v.code, StoreOp(ast.local), [v.value.value], v.next, v.temps);
    case Binary(_, _, _) =>
      BinaryOperators(ast, context, loads, next, temps);
    case Return(result) =>
      LoweredOperators(result, ForValue, loads, next, temps);
      var v := Lower(result, ForValue, loads, next, temps).value;
      OpsOneMore(v.code, Instr(v.next, ReturnOp, [v.value.value], 0));
    case Sequence(_) =>
      OperatorsFromHere(ast, 0, loads, Lowered([], false, None, next, temps));
      assert Ops([]) + OperatorsFrom(ast, 0, loads) == OperatorsFrom(ast, 0, loads);
  }

  lemma LeafOperators(context: Context, op: Op, next: nat, temps: int)
    ensures context == ForValue ==> Ops(Define(context, [], op, [], next, temps).code) == [op]
    ensures context == ForEffect && op.ConstantOp? ==> Ops(Define(context, [], op, [], next, temps).code) == []
  {
    if context == ForValue {
      OpsOneMore([], Instr(next, op, [], temps - InputCount(op) + 1));
    }
  }

  lemma DefinedOperators(context: Context, code: seq<Instr>, op: Op, inputs: seq<nat>, next: nat, temps: int)
    requires !op.ConstantOp?
    ensures Ops(Define(context, code, op, inputs, next, temps).code) == Ops(code) + [op]
  {
    OpsOneMore(code, Instr(next, op, inputs, if context == ForValue then temps - InputCount(op) + 1 else 0));
  }

  lemma {:induction false} BinaryOperators(ast: Ast, context: Context, loads: bool, next: nat, temps: int)
    requires ast.Binary? && Lower(ast, context, loads, next, temps).Some?
    ensures Ops(Lower(ast, context, loads, next, temps).value.code) == Operators(ast, context, loads)
    decreases ast, 0
  {
    LoweredOperators(ast.left, ForValue, loads, next, temps);
    var a := Lower(ast.left, ForValue, loads, next, temps).value;
    LoweredOperators(ast.right, ForValue, loads, a.next, a.temps);
    var b := Lower(ast.right, ForValue, loads, a.next, a.temps).value;
    OpsConcat(a.code, b.code);
    DefinedOperators(context, a.code + b.code, ArithmeticOp(ast.op), [a.value.value, b.value.value], b.next, b.temps);
  }

  lemma Associative(a: seq<Op>, b: seq<Op>, c: seq<Op>)
    ensures (a + b) + c == a + (b + c)
  {
  }

  lemma {:induction false} OperatorsFromHere(ast: Ast, k: nat, loads: bool, sofar: Lowered)
    requires ast.Sequence? && k <= |ast.children| && LowerFrom(ast, k, loads, sofar).Some?
    ensures Ops(LowerFrom(ast, k, loads, sofar).value.code) ==
            Ops(sofar.code) + if sofar.closed then [] else OperatorsFrom(ast, k, loads)
    decreases ast, 0, |ast.children| - k
  {
    if k == |ast.children| || sofar.closed {
      assert Ops(sofar.code) + [] == Ops(sofar.code);
    } else {
      var child, more := ChildLowered(ast, k, loads, sofar);
      OneMoreChild(ast, k, loads, sofar, child);
      OperatorsFromHere(ast, k + 1, loads, more);
      var rest := if child.closed then [] else OperatorsFrom(ast, k + 1, loads);
      Associative(Ops(sofar.code), Operators(ast.children[k], ForEffect, loads), rest);
    }
  }

  lemma ChildLowered(ast: Ast, k: nat, loads: bool, sofar: Lowered) returns (child: Lowered, more: Lowered)
    requires ast.Sequence? && k < |ast.children| && !sofar.closed && LowerFrom(ast, k, loads, sofar).Some?
    ensures Lower(ast.children[k], ForEffect, loads, sofar.next, sofar.temps) == Some(child)
    ensures more.code == sofar.code + child.code && more.closed == child.closed
    ensures LowerFrom(ast, k, loads, sofar) == LowerFrom(ast, k + 1, loads, more)
  {
    child := Lower(ast.children[k], ForEffect, loads, sofar.next, sofar.temps).value;
    more := Lowered(sofar.code + child.code, child.closed, None, child.next, child.temps);
  }

  lemma {:induction false} OneMoreChild(ast: Ast, k: nat, loads: bool, sofar: Lowered, child: Lowered)
    requires ast.Sequence? && k < |ast.children|
    requires Lower(ast.children[k], ForEffect, loads, sofar.next, sofar.temps) == Some(child)
    ensures Ops(sofar.code + child.code) == Ops(sofar.code) + Operators(ast.children[k], ForEffect, loads)
    ensures child.closed == Returns(ast.children[k])
    decreases ast, 0, |ast.children| - k, 0
  {
    LoweredOperators(ast.children[k], ForEffect, loads, sofar.next, sofar.temps);
    EffectAccepted(ast.children[k], loads, sofar.next, sofar.temps);
    OpsConcat(sofar.code, child.code);
  }

  lemma {:induction false} OperatorsLoadVariables(ast: Ast, context: Context, loads: bool)
    ensures forall op :: op in Operators(ast, context, loads) && op.LoadOp? ==> op.local.constant.None?
    decreases ast, 1
  {
    match ast
    case Store(_, stored) =>
      OperatorsLoadVariables(stored, ForValue, loads);
    case Binary(_, left, right) =>
      OperatorsLoadVariables(left, ForValue, loads);
      OperatorsLoadVariables(right, ForValue, loads);
    case Return(result) =>
      OperatorsLoadVariables(result, ForValue, loads);
    case Sequence(_) =>
      OperatorsFromLoadVariables(ast, 0, loads);
    case _ =>
  }

  lemma {:induction false} OperatorsFromLoadVariables(ast: Ast, k: nat, loads: bool)
    requires ast.Sequence? && k <= |ast.children|
    ensures forall op :: op in OperatorsFrom(ast, k, loads) && op.LoadOp? ==> op.local.constant.None?
    decreases ast, 0, |ast.children| - k
  {
    if k < |ast.children| {
      OperatorsLoadVariables(ast.children[k], ForEffect, loads);
      OperatorsFromLoadVariables(ast, k + 1, loads);
    }
  }

  lemma {:induction false} OpsContain(code: seq<Instr>, i: Instr)
    requires i in code
    ensures i.op in Ops(code)
  {
    var n := |code| - 1;
    if code[n] != i {
      OpsContain(code[..n], i);
    }
  }

  /** No load in the list is of a variable whose value is known. */
  lemma ConstantsNotLoaded(ast: Ast, context: Context, loads: bool, next: nat, temps: int)
    requires Lower(ast, context, loads, next, temps).Some?
    ensures forall i :: i in Lower(ast, context, loads, next, temps).value.code && i.op.LoadOp? ==>
              i.op.local.constant.None?
  {
    var code := Lower(ast, context, loads, next, temps).value.code;
    LoweredOperators(ast, context, loads, next, temps);
    OperatorsLoadVariables(ast, context, loads);
    forall i | i in code && i.op.LoadOp? ensures i.op.local.constant.None? {
      OpsContain(code, i);
    }
  }
}
