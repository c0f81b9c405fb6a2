/** The lowered list keeps the stack discipline of temporaries and the meaning of the tree. */
module LoweredCode {
  import opened Lowering
  import opened Wrappers

  // ----- acceptance

  lemma {:induction false} ValueAccepted(ast: Ast, loads: bool, next: nat, temps: int)
    ensures var r := Lower(ast, ForValue, loads, next, temps);
            && (r.Some? && r.value.value.Some? <==> HasValue(ast, loads))
            && (HasValue(ast, loads) ==> !r.value.closed)
    decreases ast
  {
    match ast
    case Store(_, stored) =>
      ValueAccepted(stored, loads, next, temps);
    case Binary(_, left, right) =>
      ValueAccepted(left, loads, next, temps);
      var a := Lower(left, ForValue, loads, next, temps);
      if a.Some? {
        ValueAccepted(right, loads, a.value.next, a.value.temps);
      }
    case Sequence(_) =>
      NoValueFrom(ast, 0, loads, Lowered([], false, None, next, temps));
    case _ =>
  }

  lemma {:induction false} NoValueFrom(ast: Ast, k: nat, loads: bool, sofar: Lowered)
    requires ast.Sequence? && k <= |ast.children| && sofar.value.None?
    ensures LowerFrom(ast, k, loads, sofar).Some? ==> LowerFrom(ast, k, loads, sofar).value.value.None?
    decreases |ast.children| - k
  {
    if k < |ast.children| && !sofar.closed {
      var child := Lower(ast.children[k], ForEffect, loads, sofar.next, sofar.temps);
      if child.Some? {
        NoValueFrom(ast, k + 1, loads,
            Lowered(sofar.code + child.value.code, child.value.closed, None, child.value.next, child.value.temps));
      }
    }
  }

  /** Visiting for effect succeeds exactly on the accepted trees, and leaves the list closed exactly when the tree
      returns. */
  lemma {:induction false} EffectAccepted(ast: Ast, loads: bool, next: nat, temps: int)
    ensures var r := Lower(ast, ForEffect, loads, next, temps);
            && (r.Some? <==> Accepted(ast, loads))
            && (r.Some? ==> r.value.closed == Returns(ast))
    decreases ast, 1
  {
    match ast
    case Store(_, stored) =>
      ValueAccepted(stored, loads, next, temps);
    case Binary(_, left, right) =>
      ValueAccepted(left, loads, next, temps);
      var a := Lower(left, ForValue, loads, next, temps);
      if a.Some? {
        ValueAccepted(right, loads, a.value.next, a.value.temps);
      }
    case Return(result) =>
      ValueAccepted(result, loads, next, temps);
    case Sequence(_) =>
      FromAccepted(ast, 0, loads, Lowered([], false, None, next, temps));
    case _ =>
  }

  lemma {:induction false} FromAccepted(ast: Ast, k: nat, loads: bool, sofar: Lowered)
    requires ast.Sequence? && k <= |ast.children|
    requires sofar.closed <==> exists j :: 0 <= j < k && Returns(ast.children[j])
    ensures var r := LowerFrom(ast, k, loads, sofar);
            && (r.Some? <==> sofar.closed || AcceptedFrom(ast, k, loads))
            && (r.Some? ==> r.value.closed == Returns(ast))
    decreases ast, 0, |ast.children| - k
  {
    if k < |ast.children| && !sofar.closed {
      EffectAccepted(ast.children[k], loads, sofar.next, sofar.temps);
      var child := Lower(ast.children[k], ForEffect, loads, sofar.next, sofar.temps);
      if child.Some? {
        FromAccepted(ast, k + 1, loads,
            Lowered(sofar.code + child.value.code, child.value.closed, None, child.value.next, child.value.temps));
      }
    }
  }

  // ----- temporaries

  /** An instruction finds its inputs on top of the stack of live temporaries, in order; its own name is new
      there, and its temporary, if it is bound to one, is the next one above those left. */
  predicate Fits(i: Instr, stack: seq<nat>) {
    && |i.inputs| == InputCount(i.op) <= |stack|
    && stack[|stack| - |i.inputs|..] == i.inputs
    && i.id !in stack[..|stack| - |i.inputs|]
    && (i.temp == 0 || (i.temp == |stack| - |i.inputs| + 1 && i.op != ReturnOp))
  }

  function After(i: Instr, stack: seq<nat>): seq<nat>
    requires Fits(i, stack)
  {
    stack[..|stack| - |i.inputs|] + if i.temp == 0 then [] else [i.id]
  }

  /** The stack of live temporaries behind a list, None when some instruction does not fit. */
  function Track(code: seq<Instr>, stack: seq<nat>): Option<seq<nat>>
    decreases |code|
  {
    if code == [] then Some(stack)
    else if Fits(code[0], stack) then Track(code[1..], After(code[0], stack))
    else None
  }

  lemma {:induction false} TrackConcat(a: seq<Instr>, b: seq<Instr>, stack: seq<nat>)
    requires Track(a, stack).Some?
    ensures Track(a + b, stack) == Track(b, Track(a, stack).value)
    decreases |a|
  {
    if a == [] {
      assert a + b == b;
    } else {
      assert (a + b)[1..] == a[1..] + b;
      TrackConcat(a[1..], b, After(a[0], stack));
    }
  }

  ghost predicate Below(stack: seq<nat>, next: nat) {
    forall k :: 0 <= k < |stack| ==> stack[k] < next
  }

  /** The list starts from this stack of temporaries and leaves it with the value's temporary, if any, on top. */
  ghost predicate Balanced(r: Lowered, stack: seq<nat>, next: nat) {
    && next <= r.next
    && var after := if r.value.Some? then stack + [r.value.value] else stack;
       && Track(r.code, stack) == Some(after)
       && r.temps == |after|
       && (r.value.Some? ==> next <= r.value.value < r.next)
  }

  /** An instruction behind a list that leaves exactly its inputs above the stack. */
  lemma LastFits(code: seq<Instr>, i: Instr, stack: seq<nat>)
    requires |i.inputs| == InputCount(i.op) && Below(stack, i.id)
    requires i.temp == 0 || (i.temp == |stack| + 1 && i.op != ReturnOp)
    requires Track(code, stack) == Some(stack + i.inputs)
    ensures Track(code + [i], stack) == Some(stack + if i.temp == 0 then [] else [i.id])
  {
    var full := stack + i.inputs;
    assert full[|stack|..] == i.inputs && full[..|stack|] == stack;
    TrackConcat(code, [i], stack);
    assert [i][1..] == [];
    assert Track([i], full) == Track([], After(i, full));
  }

  /** A definition added behind a list whose inputs are the top of the stack. */
  lemma DefineBalanced(context: Context, code: seq<Instr>, op: Op, inputs: seq<nat>, stack: seq<nat>, start: nat,
          next: nat)
    requires |inputs| == InputCount(op) && start <= next && Below(stack, next)
    requires op == ReturnOp ==> context == ForEffect
    requires Track(code, stack) == Some(stack + inputs)
    ensures var r := Define(context, code, op, inputs, next, |stack + inputs|);
            Balanced(r, stack, start) && r.value.Some? == (context == ForValue)
  {
    assert stack + [] == stack;
    LastFits(code, Instr(next, op, inputs, if context == ForValue then |stack| + 1 else 0), stack);
  }

  lemma {:induction false} ValueBalanced(ast: Ast, loads: bool, stack: seq<nat>, next: nat)
    requires HasValue(ast, loads) && Below(stack, next)
    ensures var r := Lower(ast, ForValue, loads, next, |stack|);
            r.Some? && r.value.value.Some? && Balanced(r.value, stack, next)
    decreases ast, 2
  {
    ValueAccepted(ast, loads, next, |stack|);
    assert stack + [] == stack;
    match ast
    case Literal(v) =>
      DefineBalanced(ForValue, [], ConstantOp(v), [], stack, next, next);
    case Load(x) =>
      var op := if x.constant.Some? then ConstantOp(x.constant.value) else LoadOp(x);
      DefineBalanced(ForValue, [], op, [], stack, next, next);
    case Store(_, _) =>
      StoreBalanced(ast, ForValue, loads, stack, next);
    case Binary(_, _, _) =>
      BinaryBalanced(ast, ForValue, loads, stack, next);
  }

  lemma {:induction false} StoreBalanced(ast: Ast, context: Context, loads: bool, stack: seq<nat>, next: nat)
    requires ast.Store? && HasValue(ast, loads) && Below(stack, next)
    ensures var r := Lower(ast, context, loads, next, |stack|);
            r.Some? && r.value.value.Some? == (context == ForValue) && Balanced(r.value, stack, next)
    decreases ast, 1
  {
    ValueBalanced(ast.stored, loads, stack, next);
    var v := Lower(ast.stored, ForValue, loads, next, |stack|).value;
    DefineBalanced(context, v.code, StoreOp(ast.local), [v.value.value], stack, next, v.next);
  }

  lemma {:induction false} BinaryBalanced(ast: Ast, context: Context, loads: bool, stack: seq<nat>, next: nat)
    requires ast.Binary? && HasValue(ast, loads) && Below(stack, next)
    ensures var r := Lower(ast, context, loads, next, |stack|);
            r.Some? && r.value.value.Some? == (context == ForValue) && Balanced(r.value, stack, next)
    decreases ast, 1
  {
    OperandsBalanced(ast, loads, stack, next);
    var a := Lower(ast.left, ForValue, loads, next, |stack|).value;
    var b := Lower(ast.right, ForValue, loads, a.next, a.temps).value;
    DefineBalanced(context, a.code + b.code, ArithmeticOp(ast.op), [a.value.value, b.value.value], stack, next, b.next);
  }

  lemma {:induction false} OperandsBalanced(ast: Ast, loads: bool, stack: seq<nat>, next: nat)
    requires ast.Binary? && HasValue(ast.left, loads) && HasValue(ast.right, loads) && Below(stack, next)
    ensures var a := Lower(ast.left, ForValue, loads, next, |stack|);
            && a.Some? && a.value.value.Some? && next <= a.value.next
            && var b := Lower(ast.right, ForValue, loads, a.value.next, a.value.temps);
               && b.Some? && b.value.value.Some? && a.value.next <= b.value.next
               && Track(a.value.code + b.value.code, stack) == Some(stack + [a.value.value.value, b.value.value.value])
               && b.value.temps == |stack| + 2
    decreases ast, 0
  {
    ValueBalanced(ast.left, loads, stack, next);
    var a := Lower(ast.left, ForValue, loads, next, |stack|).value;
    var pushed := stack + [a.value.value];
    ValueBalanced(ast.right, loads, pushed, a.next);
    var b := Lower(ast.right, ForValue, loads, a.next, a.temps).value;
    TrackConcat(a.code, b.code, stack);
    assert pushed + [b.value.value] == stack + [a.value.value, b.value.value];
  }

  /** Each effect restores the count of temporaries. */
  lemma {:induction false} EffectBalanced(ast: Ast, loads: bool, stack: seq<nat>, next: nat)
    requires Accepted(ast, loads) && Below(stack, next)
    ensures var r := Lower(ast, ForEffect, loads, next, |stack|);
            r.Some? && r.value.value.None? && Balanced(r.value, stack, next)
    decreases ast, 2
  {
    match ast
    case Literal(v) =>
    case Load(x) =>
    case Store(_, _) =>
      StoreBalanced(ast, ForEffect, loads, stack, next);
    case Binary(_, _, _) =>
      BinaryBalanced(ast, ForEffect, loads, stack, next);
    case Return(result) =>
      ValueBalanced(result, loads, stack, next);
      var v := Lower(result, ForValue, loads, next, |stack|).value;
      DefineBalanced(ForEffect, v.code, ReturnOp, [v.value.value], stack, next, v.next);
    case Sequence(_) =>
      FromBalanced(ast, 0, loads, stack, next, Lowered([], false, None, next, |stack|));
  }

  lemma {:induction false} FromBalanced(ast: Ast, k: nat, loads: bool, stack: seq<nat>, next: nat, sofar: Lowered)
    requires ast.Sequence? && k <= |ast.children| && (sofar.closed || AcceptedFrom(ast, k, loads))
    requires Below(stack, next) && sofar.value.None? && Balanced(sofar, stack, next)
    requires !sofar.closed ==> forall j :: 0 <= j < k ==> !Returns(ast.children[j])
    ensures var r := LowerFrom(ast, k, loads, sofar);
            r.Some? && r.value.value.None? && Balanced(r.value, stack, next)
    decreases ast, 0, |ast.children| - k
  {
    if k < |ast.children| && !sofar.closed {
      EffectBalanced(ast.children[k], loads, stack, sofar.next);
      EffectAccepted(ast.children[k], loads, sofar.next, sofar.temps);
      var child := Lower(ast.children[k], ForEffect, loads, sofar.next, sofar.temps).value;
      TrackConcat(sofar.code, child.code, stack);
      FromBalanced(ast, k + 1, loads, stack, next,
          Lowered(sofar.code + child.code, child.closed, None, child.next, child.temps));
    }
  }

  // ----- meaning

  /** A machine that agrees with the source state, and keeps the values of all definitions before next. */
  ghost predicate Extends(m: Machine, was: Machine, next: nat) {
    forall d :: d in was.values && d < next ==> d in m.values && m.values[d] == was.values[d]
  }

  lemma RunOne(arith: Arithmetic, i: Instr, m: Machine)
    ensures Run(arith, [i], m) == if m.state.result.Some? then m else Step(arith, i, m)
  {
    assert [i][1..] == [];
  }

  /** What running a lowered list must leave: the state evaluation leaves, and the value under its definition. */
  ghost predicate Preserved(arith: Arithmetic, ast: Ast, r: Lowered, next: nat, m: Machine) {
    var after := Run(arith, r.code, m);
    var (state, v) := Eval(arith, ast, m.state);
    && after.state == state
    && (r.value.Some? ==> r.value.value in after.values && after.values[r.value.value] == v)
    && Extends(after, m, next)
  }

  /** A value leaves no result: only a return does. */
  lemma {:induction false} ValuePreserved(arith: Arithmetic, ast: Ast, loads: bool, next: nat, stack: seq<nat>,
          m: Machine)
    requires HasValue(ast, loads) && Below(stack, next) && m.state.result.None?
    ensures var r := Lower(ast, ForValue, loads, next, |stack|);
            && r.Some? && r.value.value.Some? && Balanced(r.value, stack, next)
            && Preserved(arith, ast, r.value, next, m)
            && Eval(arith, ast, m.state).0.result.None?
    decreases ast, 2
  {
    ValueBalanced(ast, loads, stack, next);
    match ast
    case Literal(v) =>
      LeafPreserved(arith, ConstantOp(v), next, |stack|, m);
    case Load(x) =>
      LeafPreserved(arith, if x.constant.Some? then ConstantOp(x.constant.value) else LoadOp(x), next, |stack|, m);
    case Store(_, _) =>
      StorePreserved(arith, ast, ForValue, loads, next, stack, m);
    case Binary(_, _, _) =>
      BinaryPreserved(arith, ast, ForValue, loads, next, stack, m);
  }

  lemma LeafPreserved(arith: Arithmetic, op: Op, next: nat, temps: nat, m: Machine)
    requires m.state.result.None? && (op.ConstantOp? || op.LoadOp?)
    ensures Run(arith, Define(ForValue, [], op, [], next, temps).code, m) ==
            Step(arith, Instr(next, op, [], temps + 1), m)
  {
    RunOne(arith, Instr(next, op, [], temps + 1), m);
    assert [] + [Instr(next, op, [], temps + 1)] == [Instr(next, op, [], temps + 1)];
  }

  lemma {:induction false} StorePreserved(arith: Arithmetic, ast: Ast, context: Context, loads: bool, next: nat,
          stack: seq<nat>, m: Machine)
    requires ast.Store? && HasValue(ast, loads) && Below(stack, next) && m.state.result.None?
    ensures var r := Lower(ast, context, loads, next, |stack|);
            && r.Some? && Preserved(arith, ast, r.value, next, m)
            && Eval(arith, ast, m.state).0.result.None?
    decreases ast, 1
  {
    ValuePreserved(arith, ast.stored, loads, next, stack, m);
    var v := Lower(ast.stored, ForValue, loads, next, |stack|).value;
    var last := Instr(v.next, StoreOp(ast.local), [v.value.value], if context == ForValue then |stack| + 1 else 0);
    RunConcat(arith, v.code, [last], m);
    RunOne(arith, last, Run(arith, v.code, m));
  }

  lemma {:induction false} BinaryPreserved(arith: Arithmetic, ast: Ast, context: Context, loads: bool, next: nat,
          stack: seq<nat>, m: Machine)
    requires ast.Binary? && HasValue(ast, loads) && Below(stack, next) && m.state.result.None?
    ensures var r := Lower(ast, context, loads, next, |stack|);
            && r.Some? && Preserved(arith, ast, r.value, next, m)
            && Eval(arith, ast, m.state).0.result.None?
    decreases ast, 1
  {
    OperandsPreserved(arith, ast, loads, next, stack, m);
    var a := Lower(ast.left, ForValue, loads, next, |stack|).value;
    var b := Lower(ast.right, ForValue, loads, a.next, a.temps).value;
    var last := Instr(b.next, ArithmeticOp(ast.op), [a.value.value, b.value.value],
                      if context == ForValue then |stack| + 1 else 0);
    RunConcat(arith, a.code + b.code, [last], m);
    RunOne(arith, last, Run(arith, a.code + b.code, m));
  }

  function ValueOf(m: Machine, d: nat): int {
    if d in m.values then m.values[d] else 0
  }

  lemma {:induction false} OperandsPreserved(arith: Arithmetic, ast: Ast, loads: bool, next: nat, stack: seq<nat>,
          m: Machine)
    requires ast.Binary? && HasValue(ast.left, loads) && HasValue(ast.right, loads)
    requires Below(stack, next) && m.state.result.None?
    ensures var a := Lower(ast.left, ForValue, loads, next, |stack|);
            && a.Some? && a.value.value.Some? && next <= a.value.next
            && var b := Lower(ast.right, ForValue, loads, a.value.next, a.value.temps);
               && b.Some? && b.value.value.Some? && a.value.next <= b.value.next && b.value.temps == |stack| + 2
               && var after := Run(arith, a.value.code + b.value.code, m);
                  var (middle, first) := Eval(arith, ast.left, m.state);
                  && (after.state, ValueOf(after, b.value.value.value)) == Eval(arith, ast.right, middle)
                  && ValueOf(after, a.value.value.value) == first
                  && a.value.value.value in after.values && b.value.value.value in after.values
                  && Extends(after, m, next)
                  && after.state.result.None?
    decreases ast, 0
  {
    ValuePreserved(arith, ast.left, loads, next, stack, m);
    var a := Lower(ast.left, ForValue, loads, next, |stack|).value;
    var halfway := Run(arith, a.code, m);
    var pushed := stack + [a.value.value];
    ValuePreserved(arith, ast.right, loads, a.next, pushed, halfway);
    var b := Lower(ast.right, ForValue, loads, a.next, a.temps).value;
    RunConcat(arith, a.code, b.code, m);
  }

  /** Running the code of an accepted tree leaves the variables, stores and result that evaluation leaves. */
  lemma {:induction false} EffectPreserved(arith: Arithmetic, ast: Ast, loads: bool, next: nat, stack: seq<nat>,
          m: Machine)
    requires Accepted(ast, loads) && Below(stack, next) && m.state.result.None?
    ensures var r := Lower(ast, ForEffect, loads, next, |stack|);
            && r.Some?
            && var after := Run(arith, r.value.code, m);
               && after.state == Eval(arith, ast, m.state).0
               && (after.state.result.Some? <==> Returns(ast))
    decreases ast, 2
  {
    EffectBalanced(ast, loads, stack, next);
    match ast
    case Literal(v) =>
    case Load(x) =>
    case Store(_, _) =>
      StorePreserved(arith, ast, ForEffect, loads, next, stack, m);
    case Binary(_, _, _) =>
      BinaryPreserved(arith, ast, ForEffect, loads, next, stack, m);
    case Return(result) =>
      ValuePreserved(arith, result, loads, next, stack, m);
      var v := Lower(result, ForValue, loads, next, |stack|).value;
      var last := Instr(v.next, ReturnOp, [v.value.value], 0);
      RunConcat(arith, v.code, [last], m);
      RunOne(arith, last, Run(arith, v.code, m));
    case Sequence(_) =>
      FromPreserved(arith, ast, 0, loads, next, stack, Lowered([], false, None, next, |stack|), m);
  }

  lemma {:induction false} FromPreserved(arith: Arithmetic, ast: Ast, k: nat, loads: bool, next: nat, stack: seq<nat>,
          sofar: Lowered, m: Machine)
    requires ast.Sequence? && k <= |ast.children| && (sofar.closed || AcceptedFrom(ast, k, loads))
    requires Below(stack, next) && m.state.result.None? && next <= sofar.next && sofar.temps == |stack|
    requires sofar.closed <==> exists j :: 0 <= j < k && Returns(ast.children[j])
    requires Run(arith, sofar.code, m).state.result.Some? <==> sofar.closed
    ensures var r := LowerFrom(ast, k, loads, sofar);
            && r.Some?
            && var after := Run(arith, r.value.code, m);
               && after.state == EvalFrom(arith, ast, k, Run(arith, sofar.code, m).state)
               && (after.state.result.Some? <==> Returns(ast))
    decreases ast, 0, |ast.children| - k
  {
    if k < |ast.children| && !sofar.closed {
      var halfway := Run(arith, sofar.code, m);
      EffectPreserved(arith, ast.children[k], loads, sofar.next, stack, halfway);
      EffectBalanced(ast.children[k], loads, stack, sofar.next);
      EffectAccepted(ast.children[k], loads, sofar.next, sofar.temps);
      var child := Lower(ast.children[k], ForEffect, loads, sofar.next, sofar.temps).value;
      RunConcat(arith, sofar.code, child.code, m);
      FromPreserved(arith, ast, k + 1, loads, next, stack,
          Lowered(sofar.code + child.code, child.closed, None, child.next, child.temps), m);
    }
  }

  // ----- running on temporaries

  /** A machine without names: an instruction takes its inputs from the top of the stack of temporaries and a
      bound one puts its value there. */
  datatype StackMachine = StackMachine(state: State, temps: seq<int>)

  function Produced(arith: Arithmetic, op: Op, locals: map<nat, int>, inputs: seq<int>): int
    requires |inputs| == InputCount(op)
  {
    match op
    case ConstantOp(v) => v
    case LoadOp(x) => ReadSlot(locals, x)
    case StoreOp(_) => inputs[0]
    case ArithmeticOp(op) => arith(op, inputs[0], inputs[1])
    case ReturnOp => inputs[0]
  }

  function StackStep(arith: Arithmetic, i: Instr, m: StackMachine): StackMachine
    requires InputCount(i.op) <= |m.temps|
  {
    var left := |m.temps| - InputCount(i.op);
    var v := Produced(arith, i.op, m.state.locals, m.temps[left..]);
    var state := match i.op
      case StoreOp(x) => WriteLocal(m.state, x, v)
      case ReturnOp => m.state.(result := Some(v))
      case _ => m.state;
    StackMachine(state, m.temps[..left] + if i.temp == 0 then [] else [v])
  }

  function StackRun(arith: Arithmetic, code: seq<Instr>, m: StackMachine): StackMachine
    decreases |code|
  {
    if code == [] || m.state.result.Some? || InputCount(code[0].op) > |m.temps| then m
    else StackRun(arith, code[1..], StackStep(arith, code[0], m))
  }

  /** The temporaries hold the values of the definitions bound to them. */
  ghost predicate Mirrors(m: Machine, stack: seq<nat>, temps: seq<int>) {
    |stack| == |temps| && forall k :: 0 <= k < |stack| ==> stack[k] in m.values && m.values[stack[k]] == temps[k]
  }

  lemma StepMirrors(arith: Arithmetic, i: Instr, m: Machine, stack: seq<nat>, temps: seq<int>)
    requires Mirrors(m, stack, temps) && Fits(i, stack)
    ensures var after := StackStep(arith, i, StackMachine(m.state, temps));
            after.state == Step(arith, i, m).state && Mirrors(Step(arith, i, m), After(i, stack), after.temps)
  {
    var n, s := |i.inputs|, |stack|;
    forall k | 0 <= k < n ensures i.inputs[k] in m.values && m.values[i.inputs[k]] == temps[s - n..][k] {
      assert stack[s - n..][k] == stack[s - n + k];
    }
    forall k | 0 <= k < s - n ensures stack[k] != i.id {
      assert stack[..s - n][k] == stack[k];
    }
  }

  /** On a list that fits, the machine without names does what the machine with names does. */
  lemma {:induction false} TemporariesSuffice(arith: Arithmetic, code: seq<Instr>, m: Machine, stack: seq<nat>,
          temps: seq<int>)
    requires Mirrors(m, stack, temps) && Track(code, stack).Some?
    ensures StackRun(arith, code, StackMachine(m.state, temps)).state == Run(arith, code, m).state
    decreases |code|
  {
    if code != [] && m.state.result.None? {
      StepMirrors(arith, code[0], m, stack, temps);
      TemporariesSuffice(arith, code[1..], Step(arith, code[0], m), After(code[0], stack),
          StackStep(arith, code[0], StackMachine(m.state, temps)).temps);
    }
  }
}
