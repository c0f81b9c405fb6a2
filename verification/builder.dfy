/** The visitors that lower a syntax tree, and the builder they share. */
module Building {
  import opened Lowering
  import opened Wrappers
  import opened LoweredCode
  import opened Listing

  /** The flow graph builder: a name for each new instruction (its address in the source), and the number of live
      temporaries. */
  class Builder {
    var next: nat
    var tempCount: int

    constructor ()
      ensures next == 0 && tempCount == 0
    {
      next, tempCount := 0, 0;
    }

    method NewName() returns (id: nat)
      modifies this`next
      ensures id == old(next) && next == id + 1
    {
      id := next;
      next := next + 1;
    }

    /** graph_builder_alloc_temp: the first temporary is 1. */
    method AllocTemp() returns (temp: int)
      modifies this`tempCount
      ensures temp == tempCount == old(tempCount) + 1
    {
      tempCount := tempCount + 1;
      temp := tempCount;
    }

    method DeallocTemps(count: nat)
      modifies this`tempCount
      ensures tempCount == old(tempCount) - count
    {
      tempCount := tempCount - count;
    }
  }

  /** An effect visitor, or a value visitor when the context is ForValue. The entry and exit links are the ends of
      code; closed says that the exit link was cleared behind a return. */
  class Visitor {
    const owner: Builder
    const context: Context
    const loads: bool
    var code: seq<Instr>
    var closed: bool
    var value: Option<nat>

    constructor (owner: Builder, context: Context, loads: bool)
      ensures this.owner == owner && this.context == context && this.loads == loads
      ensures code == [] && !closed && value == None
    {
      this.owner, this.context, this.loads := owner, context, loads;
      code, closed, value := [], false, None;
    }

    ghost function Snapshot(): Lowered
      reads this, owner
    {
      Lowered(code, closed, value, owner.next, owner.tempCount)
    }

    /** evis_is_open */
    predicate IsOpen()
      reads this
    {
      code == [] || !closed
    }

    /** evis_bind */
    method Bind(defn: Instr) returns (input: nat)
      requires !closed
      modifies this`code, owner`tempCount
      ensures input == defn.id
      ensures owner.tempCount == old(owner.tempCount) - InputCount(defn.op) + 1
      ensures code == old(code) + [defn.(temp := owner.tempCount)]
    {
      owner.DeallocTemps(InputCount(defn.op));
      var temp := owner.AllocTemp();
      code := code + [defn.(temp := temp)];
      input := defn.id;
    }

    /** evis_do and evis_add_instruction */
    method Do(instr: Instr)
      requires !closed
      modifies this`code, owner`tempCount
      ensures owner.tempCount == old(owner.tempCount) - InputCount(instr.op)
      ensures code == old(code) + [instr]
    {
      owner.DeallocTemps(InputCount(instr.op));
      code := code + [instr];
    }

    /** evis_add_return_exit */
    method AddReturnExit(value: nat)
      requires !closed
      modifies this`code, this`closed, owner
      ensures closed && owner.next == old(owner.next) + 1 && owner.tempCount == old(owner.tempCount) - 1
      ensures code == old(code) + [Instr(old(owner.next), ReturnOp, [value], 0)]
    {
      var id := owner.NewName();
      Do(Instr(id, ReturnOp, [value], 0));
      closed := true;
    }

    /** evis_append */
    method Append(other: Visitor)
      requires !closed && other != this && (other.closed ==> other.code != [])
      modifies this`code, this`closed
      ensures code == old(code) + other.code && closed == other.closed
    {
      if other.code != [] {
        code := code + other.code;
        closed := other.closed;
      }
    }

    /** evis_return_definition and vvis_return_definition, on a new definition. */
    method ReturnDefinition(op: Op, inputs: seq<nat>)
      requires !closed && value == None
      modifies this, owner
      ensures Snapshot() == Define(context, old(code), op, inputs, old(owner.next), old(owner.tempCount))
    {
      var id := owner.NewName();
      var defn := Instr(id, op, inputs, 0);
      if context == ForValue {
        var input := Bind(defn);
        value := Some(input);
      } else if !op.ConstantOp? {
        Do(defn);
      }
    }

    /** ast_visit on a fresh visitor. False stands for a crash: an operand without a value, or a node kind
        without a visitor. */
    method Visit(ast: Ast) returns (ok: bool)
      requires code == [] && !closed && value == None
      modifies this, owner
      ensures ok <==> Lower(ast, context, loads, old(owner.next), old(owner.tempCount)).Some?
      ensures ok ==> Snapshot() == Lower(ast, context, loads, old(owner.next), old(owner.tempCount)).value
      ensures closed ==> code != []
      decreases ast, 1
    {
      match ast
      case Literal(v) =>
        ReturnDefinition(ConstantOp(v), []);
        ok := true;
      case Load(x) =>
        if context == ForValue && loads {
          ReturnDefinition(if x.constant.Some? then ConstantOp(x.constant.value) else LoadOp(x), []);
        }
        ok := true;
      case Store(x, stored) =>
        var operand;
        ok, operand := VisitOperand(stored);
        if ok && operand.Some? {
          ReturnDefinition(StoreOp(x), [operand.value]);
        } else {
          ok := false;
        }
      case Binary(op, left, right) =>
        var first, second;
        ok, first := VisitOperand(left);
        if ok && first.Some? {
          ok, second := VisitOperand(right);
          if ok && second.Some? {
            ReturnDefinition(ArithmeticOp(op), [first.value, second.value]);
          } else {
            ok := false;
          }
        } else {
          ok := false;
        }
      case Return(result) =>
        var operand;
        ok, operand := VisitOperand(result);
        if ok && operand.Some? {
          AddReturnExit(operand.value);
        } else {
          ok := false;
        }
      case Sequence(_) =>
        ok := VisitSequence(ast);
      case Other =>
        ok := false;
    }

    /** A new value visitor for an operand, and its list behind this one. */
    method VisitOperand(ast: Ast) returns (ok: bool, operand: Option<nat>)
      requires !closed
      modifies this`code, this`closed, owner
      ensures !closed && old(code) <= code
      ensures var r := Lower(ast, ForValue, loads, old(owner.next), old(owner.tempCount));
              && ok == r.Some?
              && (ok ==> operand == r.value.value)
              && (ok && operand.Some? ==>
                    code == old(code) + r.value.code && owner.next == r.value.next && owner.tempCount == r.value.temps)
      decreases ast, 2
    {
      var v := new Visitor(owner, ForValue, loads);
      ok := v.Visit(ast);
      operand := None;
      ValueAccepted(ast, loads, old(owner.next), old(owner.tempCount));
      if ok && v.value.Some? {
        operand := v.value;
        Append(v);
      }
    }

    /** The children, each with its own effect visitor, up to the first return. */
    method VisitSequence(ast: Ast) returns (ok: bool)
      requires ast.Sequence? && code == [] && !closed && value == None
      modifies this`code, this`closed, owner
      ensures ok <==> LowerFrom(ast, 0, loads, old(Snapshot())).Some?
      ensures ok ==> Snapshot() == LowerFrom(ast, 0, loads, old(Snapshot())).value
      ensures closed ==> code != []
      decreases ast, 0
    {
      ok := true;
      var i := 0;
      ghost var start := Snapshot();
      while IsOpen() && i < |ast.children|
        invariant 0 <= i <= |ast.children| && ok
        invariant closed ==> code != []
        invariant LowerFrom(ast, i, loads, Snapshot()) == LowerFrom(ast, 0, loads, start)
      {
        var child := new Visitor(owner, ForEffect, loads);
        ghost var before := Snapshot();
        ok := child.Visit(ast.children[i]);
        ghost var r := Lower(ast.children[i], ForEffect, loads, before.next, before.temps);
        if !ok {
          return;
        }
        Append(child);
        assert child.Snapshot() == r.value;
        assert Snapshot() == Lowered(before.code + r.value.code, r.value.closed, None, r.value.next, r.value.temps);
        i := i + 1;
      }
    }
  }

  /** graph_build: the list behind the function's entry. It is built exactly for the accepted trees. It then holds
      the tree's operators in postorder and no load of a constant, leaves no temporary behind and finds every operand
      on top of the temporaries; and running it, by name or on temporaries alone, gives the variables, stores and
      result of evaluating the tree. */
  method BuildGraph(ast: Ast, loads: bool) returns (ok: bool, code: seq<Instr>)
    ensures ok <==> Accepted(ast, loads)
    ensures ok ==> Lower(ast, ForEffect, loads, 0, 0).Some? && code == Lower(ast, ForEffect, loads, 0, 0).value.code
    ensures ok ==> Ops(code) == Operators(ast, ForEffect, loads)
    ensures ok ==> forall i :: i in code && i.op.LoadOp? ==> i.op.local.constant.None?
    ensures ok ==> Track(code, []) == Some([])
    ensures ok ==> forall arith: Arithmetic, s: State {:trigger Eval(arith, ast, s)} | s.result.None? ::
              && Run(arith, code, Machine(s, map[])).state == Eval(arith, ast, s).0
              && StackRun(arith, code, StackMachine(s, [])).state == Eval(arith, ast, s).0
  {
    var builder := new Builder();
    var forEffect := new Visitor(builder, ForEffect, loads);
    ok := forEffect.Visit(ast);
    code := forEffect.code;
    EffectAccepted(ast, loads, 0, 0);
    if ok {
      EffectBalanced(ast, loads, [], 0);
      LoweredOperators(ast, ForEffect, loads, 0, 0);
      ConstantsNotLoaded(ast, ForEffect, loads, 0, 0);
      forall arith: Arithmetic, s: State {:trigger Eval(arith, ast, s)} | s.result.None?
        ensures Run(arith, code, Machine(s, map[])).state == Eval(arith, ast, s).0
        ensures StackRun(arith, code, StackMachine(s, [])).state == Eval(arith, ast, s).0
      {
        EffectPreserved(arith, ast, loads, 0, [], Machine(s, map[]));
        TemporariesSuffice(arith, code, Machine(s, map[]), [], []);
      }
    }
  }

  /** The source does not bind the value visitor for loads. Where it accepts a tree nonetheless, it builds the same
      list. */
  lemma {:induction false} UnboundLoadsAgree(ast: Ast, context: Context, next: nat, temps: int)
    requires if context == ForValue then HasValue(ast, false) else Accepted(ast, false)
    ensures Lower(ast, context, false, next, temps) == Lower(ast, context, true, next, temps)
    ensures if context == ForValue then HasValue(ast, true) else Accepted(ast, true)
    decreases ast, 1
  {
    match ast
    case Store(_, stored) =>
      UnboundLoadsAgree(stored, ForValue, next, temps);
    case Binary(_, left, right) =>
      UnboundLoadsAgree(left, ForValue, next, temps);
      ValueAccepted(left, false, next, temps);
      var a := Lower(left, ForValue, false, next, temps).value;
      UnboundLoadsAgree(right, ForValue, a.next, a.temps);
    case Return(result) =>
      UnboundLoadsAgree(result, ForValue, next, temps);
    case Sequence(_) =>
      UnboundLoadsAgreeFrom(ast, 0, Lowered([], false, None, next, temps));
    case _ =>
  }

  lemma {:induction false} UnboundLoadsAgreeFrom(ast: Ast, k: nat, sofar: Lowered)
    requires ast.Sequence? && k <= |ast.children| && AcceptedFrom(ast, k, false)
    ensures LowerFrom(ast, k, false, sofar) == LowerFrom(ast, k, true, sofar)
    ensures AcceptedFrom(ast, k, true)
    decreases ast, 0, |ast.children| - k
  {
    if k < |ast.children| {
      var child := ast.children[k];
      UnboundLoadsAgree(child, ForEffect, sofar.next, sofar.temps);
      EffectAccepted(child, false, sofar.next, sofar.temps);
      var c := Lower(child, ForEffect, false, sofar.next, sofar.temps).value;
      if !Returns(child) {
        UnboundLoadsAgreeFrom(ast, k + 1, Lowered(sofar.code + c.code, c.closed, None, c.next, c.temps));
      }
    }
  }

  /** It crashes on the first operand that loads a variable. */
  lemma LoadedOperandCrashes(x: Local)
    ensures Accepted(Return(Load(x)), true) && !Accepted(Return(Load(x)), false)
    ensures Lower(Return(Load(x)), ForEffect, false, 0, 0) == None
  {
  }
}
